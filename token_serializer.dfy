/**
 * The timed, signed token format behind `User.generate_auth_token` and
 * `User.verify_auth_token`: a JSON-web-signature style string
 * `<header>.<payload>.<signature>` whose header carries the issue time and
 * the absolute expiry, whose payload carries the user id, and whose
 * signature is a keyed MAC over `<header>.<payload>`.
 *
 * The MAC is foreign code keyed by the application's secret; it is a
 * parameter here (`mac`, the MAC with that key fixed). Header and payload
 * are rendered as decimal numerals instead of base64 JSON.
 */
module TokenSerializer {
  import opened Wrappers
  import opened Strings
  import opened Decimal

  /** The keyed MAC of one secret key, applied to the signing input. */
  type Mac = string -> string

  /** The signature encoding (base64url) never produces the '.' separator. */
  ghost predicate DotFree(mac: Mac) {
    forall p :: '.' !in mac(p)
  }

  /** Distinct signing inputs get distinct signatures (an ideal MAC). */
  ghost predicate CollisionFree(mac: Mac) {
    forall p, q :: mac(p) == mac(q) ==> p == q
  }

  /** What a token asserts: who it was issued to, when, and until when it is good. */
  datatype Claims = Claims(userId: nat, issuedAt: nat, expires: nat)

  /** The outcomes of `loads`: the claims, or one of the two exceptions the caller catches. */
  datatype LoadResult = Loaded(claims: Claims) | BadSignature | SignatureExpired

  function Header(c: Claims): string {
    NatToString(c.issuedAt) + "," + NatToString(c.expires)
  }

  function Payload(c: Claims): string {
    NatToString(c.userId)
  }

  /** The signed part of a token. */
  function SigningInput(c: Claims): string {
    Header(c) + "." + Payload(c)
  }

  /** `dumps`: the token for `c`, signed with `mac`. */
  function Dumps(mac: Mac, c: Claims): (token: string)
    ensures exists signed :: token == signed + "." + mac(signed) && DecodeClaims(signed) == Some(c)
  {
    DecodeSigningInput(c);
    SigningInput(c) + "." + mac(SigningInput(c))
  }

  /** Reads the claims back from a signing input; None when it is not one. */
  function DecodeClaims(signed: string): Option<Claims> {
    match SplitFirst(signed, '.')
    case None => None
    case Some((header, payload)) =>
      match SplitFirst(header, ',')
      case None => None
      case Some((iat, exp)) =>
        match (ParseNat(iat), ParseNat(exp), ParseNat(payload))
        case (Some(i), Some(e), Some(u)) => Some(Claims(u, i, e))
        case _ => None
  }

  /**
   * `loads` at time `now`: the signature is checked first, then the header
   * is decoded, then the expiry is compared with `now` (a token is still good
   * at the second it expires). Expiry is reported only for a token the key
   * holder issued.
   */
  function Loads(mac: Mac, token: string, now: nat): (r: LoadResult)
    ensures r.SignatureExpired? ==>
              exists c :: token == Dumps(mac, c) && c.expires < now
  {
    match SplitLast(token, '.')
    case None => BadSignature
    case Some((signed, sig)) =>
      if sig != mac(signed) then BadSignature
      else match DecodeClaims(signed)
        case None => BadSignature
        case Some(c) =>
          if c.expires < now then
            SplitLastParts(token, '.');
            EncodeDecodedClaims(signed);
            SignatureExpired
          else Loaded(c)
  }

  /** The signing input of `c` decodes to `c`. */
  lemma DecodeSigningInput(c: Claims)
    ensures DecodeClaims(SigningInput(c)) == Some(c)
  {
    assert '.' !in Header(c);
    SplitFirstJoined(Header(c), '.', Payload(c));
    SplitFirstJoined(NatToString(c.issuedAt), ',', NatToString(c.expires));
    ParseRendered(c.issuedAt);
    ParseRendered(c.expires);
    ParseRendered(c.userId);
  }

  /** Only canonical signing inputs decode: decoding then re-encoding is the identity. */
  lemma EncodeDecodedClaims(signed: string)
    requires DecodeClaims(signed).Some?
    ensures SigningInput(DecodeClaims(signed).value) == signed
  {
    var c := DecodeClaims(signed).value;
    SplitFirstParts(signed, '.');
    var (header, payload) := SplitFirst(signed, '.').value;
    SplitFirstParts(header, ',');
    var (iat, exp) := SplitFirst(header, ',').value;
    RenderParsed(iat);
    RenderParsed(exp);
    RenderParsed(payload);
  }

  /** Distinct claims have distinct signing inputs. */
  lemma SigningInputInjective(c: Claims, d: Claims)
    requires SigningInput(c) == SigningInput(d)
    ensures c == d
  {
    DecodeSigningInput(c);
    DecodeSigningInput(d);
  }

  lemma SplitDumped(mac: Mac, c: Claims)
    requires DotFree(mac)
    ensures SplitLast(Dumps(mac, c), '.') == Some((SigningInput(c), mac(SigningInput(c))))
  {
    assert '.' !in mac(SigningInput(c));
    SplitLastJoined(SigningInput(c), '.', mac(SigningInput(c)));
  }

  /**
   * Round trip: a token issued for `c` loads back as `c` until `c.expires`
   * and is reported expired after it.
   */
  lemma LoadsDumps(mac: Mac, c: Claims, now: nat)
    requires DotFree(mac)
    ensures Loads(mac, Dumps(mac, c), now) == if c.expires < now then SignatureExpired else Loaded(c)
  {
    SplitDumped(mac, c);
    DecodeSigningInput(c);
  }

  /**
   * Unforgeability in the symbolic model: every token that loads is exactly
   * the token the key holder issues for the loaded claims, and is unexpired.
   */
  lemma LoadedIsDumped(mac: Mac, token: string, now: nat)
    requires Loads(mac, token, now).Loaded?
    ensures var c := Loads(mac, token, now).claims; token == Dumps(mac, c) && now <= c.expires
  {
    SplitLastParts(token, '.');
    var (signed, sig) := SplitLast(token, '.').value;
    EncodeDecodedClaims(signed);
  }

  /** Keeping the signature of `c` while changing the claims to `d` is caught as a bad signature. */
  lemma TamperedClaimsRejected(mac: Mac, c: Claims, d: Claims, now: nat)
    requires DotFree(mac) && CollisionFree(mac)
    requires c != d
    ensures Loads(mac, SigningInput(d) + "." + mac(SigningInput(c)), now) == BadSignature
  {
    assert '.' !in mac(SigningInput(c));
    SplitLastJoined(SigningInput(d), '.', mac(SigningInput(c)));
    if mac(SigningInput(d)) == mac(SigningInput(c)) {
      SigningInputInjective(c, d);
    }
  }
}
