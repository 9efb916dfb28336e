# User registration and authentication, modelled in Dafny

A model of the user subsystem of a small Flask service: accounts are
registered with a username, a password and an e-mail address; a five-digit
registration code is mailed to the address and confirms the account; and
every protected endpoint is gated by one authentication callback that
accepts either a signed, time-limited token or a username and password.

Modules, one per file:

- `Wrappers` (wrappers.dfy): `Option`.
- `Decimal` (decimal.dfy): rendering and canonical parsing of natural
  numbers, with both round trips proved. Token fields and the mailed code
  travel in this form.
- `Strings` (strings.dfy): `split(sep, 1)` and `rsplit(sep, 1)`, with the
  lemmas that splitting undoes joining.
- `Hasher` (hasher.dfy): the password hashing library as a
  SHA-512-crypt string, which the library writes as
  `$6$rounds=<n>$<salt>$<checksum>`; the model's string `$6$<salt>$<checksum>`
  leaves out the `rounds=<n>$` field. The checksum is a symbolic stand-in for
  the digest.
- `TokenSerializer` (token_serializer.dfy): the timed signed token format
  `<iat>,<exp>.<userId>.<signature>`. The keyed MAC is a function-valued
  parameter. `loads` checks the signature first, then decodes the claims,
  then compares the expiry with an explicit `now`.
- `Users` (users_model.dfy): `app/models/users.py`. It holds the user row
  (`UserRecord`), its construction, its outward view, token issue and check,
  and the authentication gateway. The gateway is a pure decision
  (`Authenticate`) plus the callback method that writes it into the request
  context (`RequestContext`, Flask's `g`).
- `UsersApi` (users_api.dfy): `app/api/users/users.py`. The user table is
  a class (`UserTable`) holding the rows in insertion order and the next
  primary key. Its methods are the register, confirm and lookup handlers.
  Each handler returns the HTTP outcome as a `Response` value instead of
  aborting.

Inputs from the outside world are parameters:

- the clock: `now`;
- the random registration code: `code`, within the range `randint` draws from;
- the random salt: `salt`;
- the application's secret key: the `mac` function that has it built in;
- whether the database commit succeeded: `committed`;
- whether the e-mail was delivered: `mailed`, with its error text `mailError`;
- the URL `url_for` builds: `uri`.

Three behaviours of the code that a reader may not expect:

- Confirmation does not check that the authenticated caller is the user
  being confirmed. Any authenticated caller who knows the code can confirm
  any account.
- A uniqueness violation detected by the database at commit time is a
  commit failure (500), not a conflict (409).
- `firstName` and `lastName` are never set by registration, so the view
  shows them as null.

## Model

| member | source | states |
|---|---|---|
| `Hasher.Encrypt` | app/models/users.py:41-43 | the stored hash is never the plaintext |
| `Hasher.Verify` | app/models/users.py:46 | verification succeeds only on a stored string that is the hash of that very secret under some valid salt |
| `Hasher.ParseEncrypted` | app/models/users.py:41-46 | a stored hash reads back as the salt it was made with and the checksum of the secret |
| `Hasher.VerifyEncrypted` | app/models/users.py:45-46 | verifying a password against a stored hash succeeds if and only if it is the password that was hashed |
| `TokenSerializer.Dumps` | app/models/users.py:53 | an issued token is a signed part that decodes to exactly the given claims, followed by that part's signature |
| `TokenSerializer.Loads` | app/models/users.py:59 | the signature is checked before the expiry: `SignatureExpired` is reported only for a token the key holder issued, and only once its expiry is past |
| `TokenSerializer.DecodeSigningInput` | app/models/users.py:48-53 | the signed part of an issued token decodes to exactly its claims (user id, issue time, expiry) |
| `TokenSerializer.EncodeDecodedClaims` | app/models/users.py:55-59 | only canonical signed parts decode: re-encoding decoded claims gives the input back |
| `TokenSerializer.LoadsDumps` | app/models/users.py:48-63 | an issued token loads as its claims up to and including its expiry second, and as `SignatureExpired` after it |
| `TokenSerializer.LoadedIsDumped` | app/models/users.py:55-63 | a token that loads has as its signed part exactly the signing input of the loaded claims, followed by the model's single spelling of their signature; the loaded claims are unexpired |
| `TokenSerializer.TamperedClaimsRejected` | app/models/users.py:58-63 | changing the claims while keeping the signature gives `BadSignature`, for a collision-free MAC |
| `Users.NewUser` | app/models/users.py:78-84 | a new user has the given username and e-mail, is unconfirmed, and has a code in [10000, 99999]; its password field is not the plaintext and verifies exactly the given password |
| `Users.CheckPassword` | app/models/users.py:45-46 | a user's password check passes only when the stored field is the hash of that very password |
| `Users.Serialize` | app/models/users.py:69-76 | the view has exactly the keys userId, username, firstName and lastName; it never has email, password or registrationCode |
| `Users.SerializeHidesSecrets` | app/models/users.py:69-76 | two users have the same view if and only if they agree on id, username, first name and last name, whatever their e-mail, hash, code or flag |
| `Users.FindFirst` | app/models/users.py:17 | `filter_by(...).first()` gives the first matching row, and gives none exactly when no row matches |
| `Users.FindByUsernameUnique` | app/api/users/users.py:39 | with unique usernames, looking up a stored user's name finds that user's row |
| `Users.FindByIdUnique` | app/models/users.py:65 | with unique ids, looking up a stored user's id finds that user's row |
| `Users.GenerateAuthToken` | app/models/users.py:48-53 | the token is a signed part that decodes to the user's id, the issue time and the issue time plus `expiration` (600 by default), followed by that part's signature |
| `Users.GeneratedTokenLoads` | app/models/users.py:48-53 | an issued token carries the user's id and is good until `expiration` seconds after issue (600 by default) |
| `Users.VerifyAuthToken` | app/models/users.py:55-67 | no user for a bad signature or an expired token; otherwise a user exactly when a row has the token's user id, and then that row |
| `Users.Authenticate` | app/models/users.py:13-21 | a resolved user is always a stored row; a credential that resolves as a token decides the outcome whatever the password; otherwise a resolved user has the credential as username and a password that verifies |
| `Users.AuthenticateExactly` | app/models/users.py:13-21 | the gateway accepts a user if and only if the credential resolves as a token to that user (any password), or it resolves to no token and names that user and the password verifies; an unknown name and a wrong password are the same rejection |
| `Users.PasswordLogin` | app/models/users.py:14-19 | a username without '.' cannot pass as a token, so the gateway accepts it exactly when the password verifies |
| `Users.TokenLogin` | app/models/users.py:13-21 | a token issued to a stored user authenticates that user with any password until it expires |
| `Users.ExpiredTokenFallsThrough` | app/models/users.py:15-19 | an expired token is then tried as a username with the password |
| `Users.RequestContext.constructor` | app/models/users.py:20 | a request's context (`g`) starts with no authenticated user; only the gateway sets one |
| `Users.VerifyPassword` | app/models/users.py:13-21 | returns true exactly when the gateway accepts, and then sets `g.user` to exactly the resolved user; on failure `g.user` is unchanged |
| `UsersApi.RegistrationMail` | app/api/users/users.py:73-79 | the registration e-mail goes to the user's address with the fixed subject, and its body carries the code as a numeral that parses back to it |
| `UsersApi.AsWrittenErrorOmitsAddress` | app/api/users/users.py:81-87 | as written, the reported `errorMsg` is the bare prefix and never names the address |
| `UsersApi.MailFailureError` | app/api/users/users.py:81-87 | the corrected `errorMsg` is the prefix followed by the address, for an address without ':' |
| `UsersApi.InsertKeepsInvariant` | app/api/users/users.py:56-67 | inserting a user with a free username and a free e-mail under the next key keeps names, e-mails and ids unique and codes in range |
| `UsersApi.ConfirmKeepsInvariant` | app/api/users/users.py:110-114 | setting one row's confirmation flag keeps the table invariant |
| `UsersApi.UserTable.GetUser` | app/api/users/users.py:36-45 | 404 exactly when no row has the username; otherwise 200 with the view of a row that has it |
| `UsersApi.UserTable.RegisterUser` | app/api/users/users.py:48-97 | a taken username gives 409 first, then a taken e-mail gives 409, both with the table unchanged; a failed commit gives 500 with the table unchanged; otherwise exactly one new row is appended under the next key, old rows are untouched, the code is mailed, and the answer is the view plus `uri`, or 500 with the error text if the mail failed (the user stays); the table invariant is kept |
| `UsersApi.UserTable.ConfirmRegistration` | app/api/users/users.py:100-126 | an unknown username or a wrong code gives 400 with nothing changed; the right code sets that row's flag and nothing else (also when already set) and answers its view, unless the commit fails (500, nothing changed); no flag goes back to false |
| `UsersApi.GetAuthToken` | app/api/users/users.py:28-33 | answers 200 with a single `token` that loads as the caller's id up to 600 seconds after issue and is expired one second later |
| `UsersApi.RegisteredUserLogsIn` | app/api/users/users.py:64-67 | after registration, the gateway accepts the new user's name (without '.') exactly with the password given at registration |

## Findings

| source | as written | input that shows it | evidently intended | confidence | as-written member | corrected member |
|---|---|---|---|---|---|---|
| app/api/users/users.py:82-86 | the message is only `'Failed to email registration code to '`, because the formatted continuation on line 83 is a separate statement; `errorMsg` never names the address | a failed delivery to `alice@example.com` reports `errorMsg` = `Failed to email registration code to ` | the message is the prefix, then the address, then `: ` and the error; `errorMsg`, its part before the first ':', names the address | high, not executed | `UsersApi.AsWrittenErrorOmitsAddress` | `UsersApi.MailFailureError` |

`UsersApi.UserTable.RegisterUser` reports the corrected message.

## Left out

- The one-second delay before the existence checks, a timing defence, has no functional effect.
- The cached example endpoint (`example_cached_handler`) only returns the wall-clock time.
- The `login_required` decorator is not modelled. No 401 answer is modelled. `GetAuthToken` requires that the gateway has set `g.user`. The confirm and lookup handlers do not use the caller.
- Request-schema validation is assumed done: the fields are present, and `registrationCode` is an integer.
- `Hasher.Digest`: the model's checksum is the secret itself, so the stored string contains the plaintext; nothing is claimed about the secrecy of stored hashes. Real SHA-512-crypt is one-way and has a fixed length; its resistance to brute force and its cost factor (rounds) are not modelled.
- Passlib raises an error on a stored string it cannot identify. `Hasher.Verify` answers false there instead. Every stored hash is well-formed.
- `TokenSerializer.Loads`: the library base64-decodes the presented signature before comparing bytes, so other spellings of an issued token's signature (extra `=` padding, characters outside the base64 alphabet) also load; the model accepts only the exact string `mac(signed)` and reports those spellings as a bad signature.
- `TokenSerializer.LoadedIsDumped`: for the same reason, a token that loads in the library need not be the very string the key holder issued; only its signed part is determined by the loaded claims, and the lemma's uniqueness of the whole string holds for the model's single signature spelling only.
- `UsersApi.UserTable.RegisterUser`: passlib refuses a password it cannot hash (one longer than its size limit of 4096 characters, or one containing a NUL character) with a `ValueError` that `register_user` does not catch; constructing the user runs before the `try`, so the source answers 500 with nothing stored, whereas the model stores the user and answers 200. Neither refusal is modelled: `Hasher.Encrypt` and `Hasher.Verify` accept every string.
- `Users.AuthenticateExactly`: the same refusal in `verify_password` (a password longer than 4096 characters or containing a NUL character) runs only for a known username, so for such a password a known name gives a server error while an unknown name gives a plain rejection; the model treats both as the same rejection.
- The HMAC and the secret key are one function parameter, `mac`. Tamper detection is proved under the stated collision-freedom of that function.
- Tokens use decimal fields in place of base64-encoded JSON. The header's algorithm field is not modelled.
- A payload that is signed but malformed raises `BadPayload`, which the source does not catch. The model treats it as a bad signature. This cannot happen for tokens the service issues.
- The `updated` and `registered` columns are never written by the core, so they are not modelled.
- The ORM hands out mutable objects shared through the session. The model stores rows as values and replaces the row.
- After a failed confirmation commit, the in-memory object still carries the flag. This is not modelled.
- A failed commit may still consume a value of the database's key sequence. The model does not advance `nextId`.
- Concurrent registrations racing on the uniqueness checks are not modelled. The model is sequential.
- `send_email` may fail with exceptions other than `HTTPError`. These propagate as a server error and are not modelled.
- Logging is not modelled.
- `url_for` is the `uri` parameter. `app/api/urls.py` is not part of this model.
