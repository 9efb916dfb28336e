/**
 * The `/users` endpoints over the user table: registration, confirmation
 * of the mailed code, profile lookup and token issue. Each handler returns
 * the HTTP outcome as a value instead of aborting the request.
 */
module UsersApi {
  import opened Wrappers
  import opened Users
  import Hasher
  import Decimal
  import Strings
  import TS = TokenSerializer

  /** A JSON reply with its status, or `abort(status)`. */
  datatype Response = Reply(status: nat, body: map<string, Json>) | Abort(status: nat)

  /** An outgoing e-mail as handed to the mail service. */
  datatype Mail = Mail(to: string, subject: string, body: string)

  const MailSubject := "Thank you for registering!"

  /** The registration e-mail: the code goes to the user's address and nowhere else. */
  function RegistrationMail(u: UserRecord): (m: Mail)
    ensures m.to == u.email && m.subject == MailSubject
    ensures exists digits :: m.body == "Registration code: " + digits &&
                             Decimal.ParseNat(digits) == Some(u.registrationCode)
  {
    Decimal.ParseRendered(u.registrationCode);
    Mail(u.email, MailSubject, "Registration code: " + Decimal.NatToString(u.registrationCode))
  }

  // The error text reported when the registration e-mail cannot be sent.

  const MailFailurePrefix := "Failed to email registration code to "

  /** `s.split(sep)[0]`. */
  function HeadBefore(s: string, sep: char): string {
    match Strings.FirstIndexOf(s, sep)
    case None => s
    case Some(i) => s[..i]
  }

  /**
   * The message as the handler builds it: the formatted continuation line
   * is a separate statement, so the message is the bare prefix.
   */
  function MailFailureMessageAsWritten(email: string, error: string): string {
    MailFailurePrefix
  }

  /** The reported `errorMsg` as written never names the address. */
  lemma AsWrittenErrorOmitsAddress(email: string, error: string)
    ensures HeadBefore(MailFailureMessageAsWritten(email, error), ':') == MailFailurePrefix
    ensures HeadBefore(MailFailureMessageAsWritten("alice@example.com", error), ':')
         != MailFailurePrefix + "alice@example.com"
  {
    assert ':' !in MailFailurePrefix;
  }

  /** The message the handler evidently means: prefix, address, then the error after a colon. */
  function MailFailureMessage(email: string, error: string): string {
    MailFailurePrefix + email + ": " + error
  }

  /** The reported `errorMsg`: the message up to its first colon. */
  function MailFailureError(email: string, error: string): (msg: string)
    ensures ':' !in email ==> msg == MailFailurePrefix + email
  {
    var m := MailFailureMessage(email, error);
    assert ':' !in email ==> HeadBefore(m, ':') == MailFailurePrefix + email by {
      if ':' !in email {
        assert ':' !in MailFailurePrefix;
        assert m == (MailFailurePrefix + email) + [':'] + (" " + error);
        Strings.SplitFirstJoined(MailFailurePrefix + email, ':', " " + error);
      }
    }
    HeadBefore(m, ':')
  }

  /**
   * The table invariant: unique usernames, unique e-mails, primary keys
   * increasing in insertion order and below the next key to hand out, and
   * every registration code in range.
   */
  ghost predicate TableInvariant(rows: seq<UserRecord>, nextId: nat) {
    && 1 <= nextId
    && UniqueUsernames(rows)
    && UniqueEmails(rows)
    && (forall i, j :: 0 <= i < j < |rows| ==> rows[i].userId < rows[j].userId)
    && (forall i :: 0 <= i < |rows| ==> 1 <= rows[i].userId < nextId)
    && (forall i :: 0 <= i < |rows| ==> CodeMin <= rows[i].registrationCode <= CodeMax)
  }

  /** Adding a user whose name and address are free keeps the invariant. */
  lemma InsertKeepsInvariant(rows: seq<UserRecord>, nextId: nat, u: UserRecord)
    requires TableInvariant(rows, nextId)
    requires FindByUsername(rows, u.username).None? && FindByEmail(rows, u.email).None?
    requires u.userId == nextId && CodeMin <= u.registrationCode <= CodeMax
    ensures TableInvariant(rows + [u], nextId + 1)
    ensures UniqueIds(rows + [u])
  {
  }

  /** Setting a row's confirmation flag keeps the invariant. */
  lemma ConfirmKeepsInvariant(rows: seq<UserRecord>, nextId: nat, i: nat)
    requires TableInvariant(rows, nextId) && i < |rows|
    ensures TableInvariant(rows[i := rows[i].(registrationConfirmed := true)], nextId)
  {
  }

  /** The `User` table. */
  class UserTable {
    var rows: seq<UserRecord>
    /** The next value of the auto-incrementing primary key. */
    var nextId: nat

    ghost predicate Valid()
      reads this
    {
      TableInvariant(rows, nextId)
    }

    constructor ()
      ensures Valid() && rows == [] && nextId == 1
    {
      rows := [];
      nextId := 1;
    }

    /** `GET /users/<username>`: 404 for an unknown name, otherwise that user's view. */
    method GetUser(username: string) returns (r: Response)
      ensures r.Abort? <==> forall i :: 0 <= i < |rows| ==> rows[i].username != username
      ensures r.Abort? ==> r.status == 404
      ensures r.Reply? ==>
                && r.status == 200
                && exists i :: 0 <= i < |rows| && rows[i].username == username && r.body == Serialize(rows[i])
    {
      var found := FindByUsername(rows, username);
      if found.None? {
        return Abort(404);
      }
      return Reply(200, Serialize(rows[found.value]));
    }

    /**
     * `POST /users/register`. A taken username is refused first, then a
     * taken e-mail, both with 409 and nothing stored. Otherwise the new user
     * is committed (`committed` false stands for a failed commit: 500,
     * nothing stored), then the code is mailed (`mailed` false stands for a
     * failed delivery with error text `mailError`: 500, but the user stays).
     * `salt` and `code` are the random salt and code, `now` the clock, `uri`
     * the user's URL; `mail` is the e-mail handed to the mail service.
     */
    method RegisterUser(username: string, password: string, email: string,
                        salt: string, code: nat, now: nat, uri: string,
                        committed: bool, mailed: bool, mailError: string)
      returns (r: Response, mail: Option<Mail>)
      requires Valid()
      requires Hasher.ValidSalt(salt) && CodeMin <= code <= CodeMax
      modifies this
      ensures Valid()
      ensures FindByUsername(old(rows), username).Some? ==>
                r == Abort(409) && rows == old(rows) && nextId == old(nextId) && mail.None?
      ensures FindByUsername(old(rows), username).None? && FindByEmail(old(rows), email).Some? ==>
                r == Abort(409) && rows == old(rows) && nextId == old(nextId) && mail.None?
      ensures FindByUsername(old(rows), username).None? && FindByEmail(old(rows), email).None? && !committed ==>
                r == Abort(500) && rows == old(rows) && nextId == old(nextId) && mail.None?
      ensures FindByUsername(old(rows), username).None? && FindByEmail(old(rows), email).None? && committed ==>
                var u := NewUser(old(nextId), username, password, email, salt, code, now);
                && rows == old(rows) + [u]
                && nextId == old(nextId) + 1
                && mail == Some(RegistrationMail(u))
                && r == if mailed then Reply(200, Serialize(u)["uri" := JStr(uri)])
                        else Reply(500, map["errorMsg" := JStr(MailFailureError(email, mailError))])
    {
      if FindByUsername(rows, username).Some? {
        return Abort(409), None;
      }
      if FindByEmail(rows, email).Some? {
        return Abort(409), None;
      }
      var user := NewUser(nextId, username, password, email, salt, code, now);
      if !committed {
        return Abort(500), None;
      }
      InsertKeepsInvariant(rows, nextId, user);
      rows := rows + [user];
      nextId := nextId + 1;
      mail := Some(RegistrationMail(user));
      if !mailed {
        return Reply(500, map["errorMsg" := JStr(MailFailureError(email, mailError))]), mail;
      }
      r := Reply(200, Serialize(user)["uri" := JStr(uri)]);
    }

    /**
     * `POST /users/confirm/<username>` with `registrationCode`: 400 for an
     * unknown name or a wrong code, with nothing changed; for the right code
     * the user's flag is set (again, if already set) and nothing else
     * changes, unless the commit fails (`committed` false: 500, nothing
     * changed).
     */
    method ConfirmRegistration(username: string, registrationCode: int, committed: bool)
      returns (r: Response)
      requires Valid()
      modifies this
      ensures Valid() && nextId == old(nextId) && |rows| == |old(rows)|
      ensures FindByUsername(old(rows), username).None? ==> r == Abort(400) && rows == old(rows)
      ensures FindByUsername(old(rows), username).Some? ==>
                var i := FindByUsername(old(rows), username).value;
                if registrationCode != old(rows)[i].registrationCode then
                  r == Abort(400) && rows == old(rows)
                else if !committed then
                  r == Abort(500) && rows == old(rows)
                else
                  && rows == old(rows)[i := old(rows)[i].(registrationConfirmed := true)]
                  && r == Reply(200, Serialize(rows[i]))
      ensures forall j :: 0 <= j < |rows| && old(rows)[j].registrationConfirmed ==> rows[j].registrationConfirmed
    {
      var found := FindByUsername(rows, username);
      if found.None? {
        return Abort(400);
      }
      var i := found.value;
      if registrationCode == rows[i].registrationCode {
        if !committed {
          return Abort(500);
        }
        ConfirmKeepsInvariant(rows, nextId, i);
        rows := rows[i := rows[i].(registrationConfirmed := true)];
        return Reply(200, Serialize(rows[i]));
      } else {
        return Abort(400);
      }
    }
  }

  /**
   * `GET /users/token` for the authenticated `g.user`: a token carrying
   * that user's id, good for the default 600 seconds.
   */
  method GetAuthToken(g: RequestContext, mac: TS.Mac, now: nat) returns (r: Response)
    requires g.user.Some?
    ensures r.Reply? && r.status == 200 && r.body.Keys == {"token"} && r.body["token"].JStr?
    ensures TS.DotFree(mac) ==>
              TS.Loads(mac, r.body["token"].s, now + DefaultExpiration)
              == TS.Loaded(TS.Claims(g.user.value.userId, now, now + DefaultExpiration))
    ensures TS.DotFree(mac) ==>
              TS.Loads(mac, r.body["token"].s, now + DefaultExpiration + 1) == TS.SignatureExpired
  {
    var u := g.user.value;
    var token := GenerateAuthToken(mac, u, now);
    r := Reply(200, map["token" := JStr(token)]);
    assert r.body["token"].s == token;
    if TS.DotFree(mac) {
      GeneratedTokenLoads(mac, u, now, DefaultExpiration, now + DefaultExpiration);
      GeneratedTokenLoads(mac, u, now, DefaultExpiration, now + DefaultExpiration + 1);
    }
  }

  /** A freshly registered user whose name has no '.' logs in with exactly the password given at registration. */
  lemma RegisteredUserLogsIn(rows: seq<UserRecord>, nextId: nat, mac: TS.Mac, now: nat,
                             username: string, password: string, email: string,
                             salt: string, code: nat, created: nat, guess: string)
    requires TableInvariant(rows, nextId)
    requires Hasher.ValidSalt(salt) && CodeMin <= code <= CodeMax
    requires FindByUsername(rows, username).None? && FindByEmail(rows, email).None?
    requires '.' !in username
    ensures var u := NewUser(nextId, username, password, email, salt, code, created);
            Authenticate(rows + [u], mac, now, username, guess) == if guess == password then Some(u) else None
  {
    var u := NewUser(nextId, username, password, email, salt, code, created);
    InsertKeepsInvariant(rows, nextId, u);
    PasswordLogin(rows + [u], mac, now, |rows|, guess);
  }

  /**
   * Register "alice", then confirm with her mailed code and with the next
   * integer: the first confirmation succeeds and sets her flag, the second
   * is refused and leaves it set.
   */
  method RegistrationScenario(salt: string, code: nat, now: nat)
    requires Hasher.ValidSalt(salt) && CodeMin <= code <= CodeMax
  {
    var table := new UserTable();
    var r, mail := table.RegisterUser("alice", "secret123", "alice@example.com",
                                      salt, code, now, "/users/alice", true, true, "");
    assert table.rows[0].username == "alice" && table.rows[0].registrationCode == code;
    assert !table.rows[0].registrationConfirmed;
    assert mail.value.to == "alice@example.com";
    r := table.ConfirmRegistration("alice", code, true);
    assert r.Reply? && table.rows[0].registrationConfirmed;
    r := table.ConfirmRegistration("alice", code + 1, true);
    assert r == Abort(400) && table.rows[0].registrationConfirmed;
  }
}
