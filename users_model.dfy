/**
 * The user model: one row of the user table, its construction at
 * registration, its outward JSON view, its auth tokens, and the
 * authentication gateway that turns a presented credential into the
 * request's authenticated user.
 */
module Users {
  import opened Wrappers
  import Hasher
  import TS = TokenSerializer

  /** The range of `random.randint(10000, 99999)`, both ends included. */
  const CodeMin := 10000
  const CodeMax := 99999

  /** Seconds a token is good for when no expiration is given. */
  const DefaultExpiration := 600

  /**
   * A row of the `User` table. `password` holds the salted hash, never the
   * plaintext; `firstName` and `lastName` are nullable columns that
   * registration leaves NULL.
   */
  datatype UserRecord = UserRecord(
    userId: nat,
    username: string,
    email: string,
    password: string,
    firstName: Option<string>,
    lastName: Option<string>,
    created: nat,
    registrationCode: nat,
    registrationConfirmed: bool)

  /** The JSON values a user view holds. */
  datatype Json = JInt(i: int) | JStr(s: string) | JNull

  /**
   * `User(username, password, email)` as committed under primary key
   * `userId`; `salt` is the hashing library's random salt, `code` the value
   * `random.randint` drew and `now` the creation time.
   */
  function NewUser(userId: nat, username: string, password: string, email: string,
                   salt: string, code: nat, now: nat): (u: UserRecord)
    requires Hasher.ValidSalt(salt)
    requires CodeMin <= code <= CodeMax
    ensures u.userId == userId && u.username == username && u.email == email
    ensures u.password != password
    ensures forall guess :: CheckPassword(u, guess) <==> guess == password
    ensures CodeMin <= u.registrationCode <= CodeMax
    ensures !u.registrationConfirmed
    ensures u.created == now && u.firstName.None? && u.lastName.None?
  {
    var hash := Hasher.Encrypt(password, salt);
    assert forall guess :: Hasher.Verify(guess, hash) <==> guess == password by {
      forall guess ensures Hasher.Verify(guess, hash) <==> guess == password {
        Hasher.VerifyEncrypted(guess, password, salt);
      }
    }
    UserRecord(userId, username, email, hash, None, None, now, code, false)
  }

  /** `User.verify_password`: checks a presented password against the stored hash. */
  predicate CheckPassword(u: UserRecord, password: string): (ok: bool)
    ensures ok ==> exists salt :: Hasher.ValidSalt(salt) && u.password == Hasher.Encrypt(password, salt)
  {
    Hasher.Verify(password, u.password)
  }

  function NullableString(s: Option<string>): Json {
    match s
    case None => JNull
    case Some(v) => JStr(v)
  }

  /** `User.serialize`: the only view of a user that leaves the service. */
  function Serialize(u: UserRecord): (view: map<string, Json>)
    ensures view.Keys == {"userId", "username", "firstName", "lastName"}
    ensures "email" !in view && "password" !in view && "registrationCode" !in view
  {
    map["userId" := JInt(u.userId), "username" := JStr(u.username),
        "firstName" := NullableString(u.firstName), "lastName" := NullableString(u.lastName)]
  }

  /**
   * Two users have the same view exactly when they agree on the id, the
   * username and the two names: the view shows all four and nothing else.
   */
  lemma SerializeHidesSecrets(u: UserRecord, v: UserRecord)
    ensures Serialize(u) == Serialize(v) <==>
              && u.userId == v.userId && u.username == v.username
              && u.firstName == v.firstName && u.lastName == v.lastName
  {
    if Serialize(u) == Serialize(v) {
      assert Serialize(u)["userId"] == Serialize(v)["userId"];
      assert Serialize(u)["username"] == Serialize(v)["username"];
      assert Serialize(u)["firstName"] == Serialize(v)["firstName"];
      assert Serialize(u)["lastName"] == Serialize(v)["lastName"];
    }
  }

  /** The first row satisfying `matches`, as `query.filter_by(...).first()` finds it. */
  function FindFirst(rows: seq<UserRecord>, matches: UserRecord -> bool): (r: Option<nat>)
    ensures r.None? <==> forall i :: 0 <= i < |rows| ==> !matches(rows[i])
    ensures r.Some? ==> r.value < |rows| && matches(rows[r.value])
    ensures r.Some? ==> forall j :: 0 <= j < r.value ==> !matches(rows[j])
  {
    if rows == [] then None
    else if matches(rows[0]) then Some(0)
    else match FindFirst(rows[1..], matches)
      case None => None
      case Some(i) => Some(i + 1)
  }

  function FindByUsername(rows: seq<UserRecord>, username: string): Option<nat> {
    FindFirst(rows, (u: UserRecord) => u.username == username)
  }

  function FindByEmail(rows: seq<UserRecord>, email: string): Option<nat> {
    FindFirst(rows, (u: UserRecord) => u.email == email)
  }

  /** `User.query.get(userId)`: lookup by primary key. */
  function FindById(rows: seq<UserRecord>, userId: nat): Option<nat> {
    FindFirst(rows, (u: UserRecord) => u.userId == userId)
  }

  ghost predicate UniqueUsernames(rows: seq<UserRecord>) {
    forall i, j :: 0 <= i < j < |rows| ==> rows[i].username != rows[j].username
  }

  ghost predicate UniqueEmails(rows: seq<UserRecord>) {
    forall i, j :: 0 <= i < j < |rows| ==> rows[i].email != rows[j].email
  }

  ghost predicate UniqueIds(rows: seq<UserRecord>) {
    forall i, j :: 0 <= i < j < |rows| ==> rows[i].userId != rows[j].userId
  }

  /** In a table with unique usernames, the lookup finds the one row with that name. */
  lemma FindByUsernameUnique(rows: seq<UserRecord>, i: nat)
    requires UniqueUsernames(rows) && i < |rows|
    ensures FindByUsername(rows, rows[i].username) == Some(i)
  {
  }

  /** In a table with unique ids, the lookup finds the one row with that id. */
  lemma FindByIdUnique(rows: seq<UserRecord>, i: nat)
    requires UniqueIds(rows) && i < |rows|
    ensures FindById(rows, rows[i].userId) == Some(i)
  {
  }

  /**
   * `user.generate_auth_token(expiration)` issued at time `now`: a signed
   * part that decodes to the user's id, the issue time and the expiry, then
   * that part's signature.
   */
  function GenerateAuthToken(mac: TS.Mac, u: UserRecord, now: nat,
                             expiration: nat := DefaultExpiration): (token: string)
    ensures exists signed :: token == signed + "." + mac(signed) &&
                             TS.DecodeClaims(signed) == Some(TS.Claims(u.userId, now, now + expiration))
  {
    var c := TS.Claims(u.userId, now, now + expiration);
    TS.DecodeSigningInput(c);
    TS.Dumps(mac, c)
  }

  /** A token carries its user's id and is good for `expiration` seconds after issue. */
  lemma GeneratedTokenLoads(mac: TS.Mac, u: UserRecord, now: nat, expiration: nat, t: nat)
    requires TS.DotFree(mac)
    ensures TS.Loads(mac, GenerateAuthToken(mac, u, now, expiration), t)
         == if now + expiration < t then TS.SignatureExpired
            else TS.Loaded(TS.Claims(u.userId, now, now + expiration))
  {
    TS.LoadsDumps(mac, TS.Claims(u.userId, now, now + expiration), t);
  }

  /**
   * `User.verify_auth_token(token)` at time `now`: no user for a bad
   * signature or an expired token, otherwise the row under the token's user
   * id, which may be gone.
   */
  function VerifyAuthToken(rows: seq<UserRecord>, mac: TS.Mac, token: string, now: nat): (r: Option<UserRecord>)
    ensures !TS.Loads(mac, token, now).Loaded? ==> r.None?
    ensures TS.Loads(mac, token, now).Loaded? ==>
              (r.Some? <==> exists i :: 0 <= i < |rows| && rows[i].userId == TS.Loads(mac, token, now).claims.userId)
    ensures r.Some? ==> r.value in rows && r.value.userId == TS.Loads(mac, token, now).claims.userId
  {
    match TS.Loads(mac, token, now)
    case Loaded(c) =>
      (match FindById(rows, c.userId)
       case None => None
       case Some(i) => Some(rows[i]))
    case _ => None
  }

  /**
   * The decision of the module-level `verify_password` gateway: the
   * credential is tried as a token first; only when that yields no user is
   * it looked up as a username, and then the password must verify.
   */
  function Authenticate(rows: seq<UserRecord>, mac: TS.Mac, now: nat,
                        usernameOrToken: string, password: string): (r: Option<UserRecord>)
    ensures r.Some? ==> r.value in rows
    ensures VerifyAuthToken(rows, mac, usernameOrToken, now).Some? ==>
              r == VerifyAuthToken(rows, mac, usernameOrToken, now)
    ensures VerifyAuthToken(rows, mac, usernameOrToken, now).None? && r.Some? ==>
              r.value.username == usernameOrToken && CheckPassword(r.value, password)
  {
    match VerifyAuthToken(rows, mac, usernameOrToken, now)
    case Some(u) => Some(u)
    case None =>
      match FindByUsername(rows, usernameOrToken)
      case None => None
      case Some(i) => if CheckPassword(rows[i], password) then Some(rows[i]) else None
  }

  /**
   * What the gateway accepts, both ways: a token that resolves to a user
   * (whatever the password), or, failing that, a username whose row
   * verifies the password. An unknown name and a wrong password are both
   * the same plain rejection.
   */
  lemma AuthenticateExactly(rows: seq<UserRecord>, mac: TS.Mac, now: nat,
                                             usernameOrToken: string, password: string, u: UserRecord)
    requires UniqueUsernames(rows)
    ensures Authenticate(rows, mac, now, usernameOrToken, password) == Some(u) <==>
              VerifyAuthToken(rows, mac, usernameOrToken, now) == Some(u) ||
              (VerifyAuthToken(rows, mac, usernameOrToken, now).None? &&
               u in rows && u.username == usernameOrToken && CheckPassword(u, password))
  {
  }

  /** A username without '.' can never pass as a token, so only its password decides. */
  lemma PasswordLogin(rows: seq<UserRecord>, mac: TS.Mac, now: nat, i: nat, password: string)
    requires UniqueUsernames(rows) && i < |rows|
    requires '.' !in rows[i].username
    ensures Authenticate(rows, mac, now, rows[i].username, password)
         == if CheckPassword(rows[i], password) then Some(rows[i]) else None
  {
  }

  /**
   * A token issued to a stored user authenticates that user, with any
   * password, until it expires.
   */
  lemma TokenLogin(rows: seq<UserRecord>, mac: TS.Mac, issued: nat, expiration: nat,
                   now: nat, i: nat, password: string)
    requires UniqueIds(rows) && i < |rows| && TS.DotFree(mac)
    requires now <= issued + expiration
    ensures Authenticate(rows, mac, now, GenerateAuthToken(mac, rows[i], issued, expiration), password)
         == Some(rows[i])
  {
    GeneratedTokenLoads(mac, rows[i], issued, expiration, now);
    FindByIdUnique(rows, i);
  }

  /** Once expired, a token is no longer a token: the same string is tried as a username. */
  lemma ExpiredTokenFallsThrough(rows: seq<UserRecord>, mac: TS.Mac, issued: nat, expiration: nat,
                                 now: nat, u: UserRecord, password: string)
    requires TS.DotFree(mac)
    requires issued + expiration < now
    ensures var token := GenerateAuthToken(mac, u, issued, expiration);
            Authenticate(rows, mac, now, token, password)
            == (match FindByUsername(rows, token)
                case None => None
                case Some(i) => if CheckPassword(rows[i], password) then Some(rows[i]) else None)
  {
    GeneratedTokenLoads(mac, u, issued, expiration, now);
  }

  /** Flask's per-request `g`: holds the authenticated user once the gateway accepts. */
  class RequestContext {
    var user: Option<UserRecord>

    constructor ()
      ensures user.None?
    {
      user := None;
    }
  }

  /**
   * The `verify_password` callback: on success records exactly the resolved
   * user as `g.user` and answers true; on failure answers false and leaves
   * `g` alone.
   */
  method VerifyPassword(g: RequestContext, rows: seq<UserRecord>, mac: TS.Mac, now: nat,
                        usernameOrToken: string, password: string) returns (ok: bool)
    modifies g
    ensures ok <==> Authenticate(rows, mac, now, usernameOrToken, password).Some?
    ensures g.user == if ok then Authenticate(rows, mac, now, usernameOrToken, password) else old(g.user)
  {
    var user := VerifyAuthToken(rows, mac, usernameOrToken, now);
    if user.None? {
      var found := FindByUsername(rows, usernameOrToken);
      if found.None? || !CheckPassword(rows[found.value], password) {
        return false;
      }
      user := Some(rows[found.value]);
    }
    g.user := user;
    return true;
  }
}
