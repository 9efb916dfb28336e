/**
 * The password hashing scheme behind `User.hash_password` and
 * `User.verify_password`: passlib's default application context, which
 * writes a salted SHA-512-crypt string `$6$rounds=<n>$<salt>$<checksum>`.
 * The model's string `$6$<salt>$<checksum>` leaves out the `rounds=<n>$`
 * field.
 *
 * The one-way digest itself is foreign code. It is modelled symbolically
 * (`Digest` below) by a checksum that is the secret itself: distinct
 * secrets get distinct checksums, which is all that verification needs.
 * What the model keeps is the stored format, the fact that the stored
 * string is never the plaintext, and that verification accepts the
 * original secret and nothing else. Secrecy of the stored string is not
 * modelled.
 */
module Hasher {
  import opened Wrappers
  import opened Strings

  /** The modular-crypt identifier of SHA-512-crypt. */
  const Ident := "$6$"

  /** SHA-512-crypt salts are at most 16 characters. */
  const MaxSaltSize := 16

  /** The hash64 alphabet: `./0-9A-Za-z`. */
  predicate IsSaltChar(c: char) {
    c == '.' || c == '/' || '0' <= c <= '9' || 'A' <= c <= 'Z' || 'a' <= c <= 'z'
  }

  /** A salt the hashing library can generate. */
  predicate ValidSalt(salt: string) {
    |salt| <= MaxSaltSize && forall i :: 0 <= i < |salt| ==> IsSaltChar(salt[i])
  }

  /**
   * Symbolic checksum: distinct secrets give distinct checksums under any
   * salt. It ignores the salt and is the secret itself, so it is not one-way.
   */
  function Digest(salt: string, secret: string): string {
    secret
  }

  /** `custom_app_context.encrypt(secret)` with the library's random salt given as `salt`. */
  function Encrypt(secret: string, salt: string): (h: string)
    requires ValidSalt(salt)
    ensures h != secret
  {
    Ident + salt + "$" + Digest(salt, secret)
  }

  /** Splits a stored hash into its salt and checksum; None when it is not a SHA-512-crypt string. */
  function Parse(h: string): Option<(string, string)> {
    if |h| >= |Ident| && h[..|Ident|] == Ident then
      match SplitFirst(h[|Ident|..], '$')
      case None => None
      case Some((salt, checksum)) => if ValidSalt(salt) then Some((salt, checksum)) else None
    else None
  }

  /** `custom_app_context.verify(secret, h)`: recompute the checksum with the stored salt. */
  function Verify(secret: string, h: string): (ok: bool)
    ensures ok ==> exists salt :: ValidSalt(salt) && h == Encrypt(secret, salt)
  {
    match Parse(h)
    case None => false
    case Some((salt, checksum)) =>
      if checksum == Digest(salt, secret) then
        ParsedParts(h);
        true
      else false
  }

  /** A string that parses is the identifier, the salt, '$' and the checksum. */
  lemma ParsedParts(h: string)
    requires Parse(h).Some?
    ensures h == Ident + Parse(h).value.0 + "$" + Parse(h).value.1
  {
    SplitFirstParts(h[|Ident|..], '$');
    assert h == Ident + h[|Ident|..];
  }

  /** A stored hash reads back as the salt it was made with and the secret's checksum. */
  lemma ParseEncrypted(secret: string, salt: string)
    requires ValidSalt(salt)
    ensures Parse(Encrypt(secret, salt)) == Some((salt, Digest(salt, secret)))
  {
    var h := Encrypt(secret, salt);
    assert h[|Ident|..] == salt + ['$'] + Digest(salt, secret);
    SplitFirstJoined(salt, '$', Digest(salt, secret));
  }

  /** Verification against a stored hash succeeds exactly for the secret that was hashed. */
  lemma VerifyEncrypted(guess: string, secret: string, salt: string)
    requires ValidSalt(salt)
    ensures Verify(guess, Encrypt(secret, salt)) <==> guess == secret
  {
    ParseEncrypted(secret, salt);
  }
}
