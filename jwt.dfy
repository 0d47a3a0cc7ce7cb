/** Access tokens: a JSON Web Token (RFC 7519) signed with HMAC-SHA256
    ("HS256", section 3.2 of RFC 7518), issued by GenerateJWT, checked by
    ValidateJWT and read from the `Authorization` header by the middleware.

    Signing is symbolic: `Sign(secret, alg, claims)` is a free constructor,
    so a signature equals another exactly when it was made with the same
    key, algorithm and claims. The compact serialisation (base64url JSON)
    is a codec passed in as a parameter, and the JWT library's own parsing
    and registered-claims validation is an opaque step whose verdict is the
    parameter `libAccepts`. */
module Jwt {
  import opened Common
  import Base64Url

  /** The `alg` header of a token; the library maps "HS256" to HS256. */
  datatype Alg = HS256 | RS256 | Other(name: string)

  /** The custom claims `user_id` and `username` and the registered claims
      (`iss`, `sub`, `aud`, `exp`, `nbf`, `iat`, `jti`) of RFC 7519 section 4.1.
      An absent time claim is None. */
  datatype Claims = Claims(
    userID: Uuid,
    username: string,
    issuer: string,
    subject: string,
    audience: seq<string>,
    expiresAt: Option<Time>,
    notBefore: Option<Time>,
    issuedAt: Option<Time>,
    id: string)

  /** A symbolic message authentication code. */
  datatype Signature = Mac(key: string, alg: Alg, claims: Claims)

  function Sign(secret: string, alg: Alg, claims: Claims): Signature {
    Mac(secret, alg, claims)
  }

  /** A decoded token: header algorithm, claims and signature. */
  datatype Jws = Jws(alg: Alg, claims: Claims, sig: Signature)

  /** The JWS compact serialisation, as a pair of functions. */
  datatype Codec = Codec(encode: Jws -> string, decode: string -> Option<Jws>)

  predicate IsCompactChar(c: char) {
    Base64Url.IsUrlChar(c) || c == '.'
  }

  /** What the model assumes of the serialisation: decoding undoes encoding,
      and an encoded token is a non-empty string of base64url characters and
      dots (three base64url parts joined by '.'). */
  ghost predicate CodecLaws(c: Codec) {
    && (forall t :: c.decode(c.encode(t)) == Some(t))
    && (forall t :: c.encode(t) != [])
    && (forall t, i :: 0 <= i < |c.encode(t)| ==> IsCompactChar(c.encode(t)[i]))
  }

  /** The configuration of the token signer; it is never changed after
      NewJWTManager. */
  datatype Manager = Manager(secret: string, issuer: string, audience: string, expiresIn: Time)

  function NewJWTManager(secret: string, issuer: string, audience: string, expiresIn: Time): (m: Manager)
    ensures m.secret == secret && m.issuer == issuer && m.audience == audience && m.expiresIn == expiresIn
  {
    Manager(secret, issuer, audience, expiresIn)
  }

  datatype Error = InvalidToken | TokenExpired | TokenNotValidYet

  /** Allowed clock skew of the explicit time checks, in seconds. */
  const Leeway: Time := 60

  /** The claims GenerateJWT puts in a token issued at `now` with the
      random token id `jti`. */
  function IssueClaims(m: Manager, userID: Uuid, username: string, now: Time, jti: string): Claims {
    Claims(userID, username, m.issuer, UuidString(userID), [m.audience],
           Some(now + m.expiresIn), Some(now), Some(now), jti)
  }

  /** GenerateJWT: a token over IssueClaims, signed with HS256 and the
      manager's secret. Signing with an HMAC key never fails, so there is no
      error case. */
  function GenerateJWT(m: Manager, codec: Codec, userID: Uuid, username: string, now: Time, jti: string): string {
    var c := IssueClaims(m, userID, username, now, jti);
    codec.encode(Jws(HS256, c, Sign(m.secret, HS256, c)))
  }

  /** The key function handed to the parser: the secret for HS256, nothing
      (ErrTokenUnverifiable) for any other algorithm. */
  function KeyFor(m: Manager, t: Jws): Option<string> {
    if t.alg == HS256 then Some(m.secret) else None
  }

  /** The library's verdict: the text decodes, the key function yields a
      key, the signature is the one that key makes, and its own validation
      (`libAccepts`) passes. */
  predicate LibraryParses(m: Manager, codec: Codec, text: string, libAccepts: bool) {
    match codec.decode(text)
    case None => false
    case Some(t) =>
      match KeyFor(m, t)
      case None => false
      case Some(key) => t.sig == Sign(key, t.alg, t.claims) && libAccepts
  }

  predicate ExpiredAt(c: Claims, now: Time) {
    c.expiresAt.Some? && now > c.expiresAt.value + Leeway
  }

  predicate NotYetValidAt(c: Claims, now: Time) {
    c.notBefore.Some? && now < c.notBefore.value - Leeway
  }

  /** ValidateJWT at time `now`. */
  function ValidateJWT(m: Manager, codec: Codec, text: string, now: Time, libAccepts: bool): Result<Claims, Error> {
    if !LibraryParses(m, codec, text, libAccepts) then Err(InvalidToken)
    else
      var c := codec.decode(text).value.claims;
      if ExpiredAt(c, now) then Err(TokenExpired)
      else if NotYetValidAt(c, now) then Err(TokenNotValidYet)
      else Ok(c)
  }

  /** One statement of everything ValidateJWT accepts: it succeeds exactly
      when the text decodes to an HS256 token signed with this manager's
      secret, the library accepts it, and neither explicit time check fires;
      it then returns that token's claims. In particular it can only add
      rejections to the library's own. */
  lemma ValidateJWTAccepts(m: Manager, codec: Codec, text: string, now: Time, libAccepts: bool)
    ensures ValidateJWT(m, codec, text, now, libAccepts).Ok? <==>
      (libAccepts && codec.decode(text).Some?
       && codec.decode(text).value.alg == HS256
       && codec.decode(text).value.sig == Sign(m.secret, HS256, codec.decode(text).value.claims)
       && !ExpiredAt(codec.decode(text).value.claims, now)
       && !NotYetValidAt(codec.decode(text).value.claims, now))
    ensures ValidateJWT(m, codec, text, now, libAccepts).Ok? ==>
      ValidateJWT(m, codec, text, now, libAccepts).value == codec.decode(text).value.claims
  {
  }

  /** The order of the checks: a parse or signature failure is reported as
      InvalidToken whatever the times; expiry is reported before not-before. */
  lemma ValidateJWTErrors(m: Manager, codec: Codec, text: string, now: Time, libAccepts: bool)
    ensures !LibraryParses(m, codec, text, libAccepts) ==> ValidateJWT(m, codec, text, now, libAccepts) == Err(InvalidToken)
    ensures LibraryParses(m, codec, text, libAccepts) && ExpiredAt(codec.decode(text).value.claims, now) ==>
      ValidateJWT(m, codec, text, now, libAccepts) == Err(TokenExpired)
    ensures (LibraryParses(m, codec, text, libAccepts) && !ExpiredAt(codec.decode(text).value.claims, now)
      && NotYetValidAt(codec.decode(text).value.claims, now)) ==>
      ValidateJWT(m, codec, text, now, libAccepts) == Err(TokenNotValidYet)
  {
  }

  /** What a generated token decodes to: an HS256 token signed with the
      manager's secret whose claims carry the user, the configured issuer and
      audience, `iat` = `nbf` = `now` and `exp` = `now` + the TTL. */
  lemma GenerateJWTClaims(m: Manager, codec: Codec, userID: Uuid, username: string, now: Time, jti: string)
    requires CodecLaws(codec)
    ensures var t := codec.decode(GenerateJWT(m, codec, userID, username, now, jti));
      && t.Some? && t.value.alg == HS256
      && t.value.sig == Sign(m.secret, HS256, t.value.claims)
      && t.value.claims.userID == userID && t.value.claims.username == username
      && t.value.claims.subject == UuidString(userID)
      && t.value.claims.issuer == m.issuer && t.value.claims.audience == [m.audience]
      && t.value.claims.issuedAt == Some(now) && t.value.claims.notBefore == Some(now)
      && t.value.claims.expiresAt == Some(now + m.expiresIn)
      && t.value.claims.id == jti
  {
    var c := IssueClaims(m, userID, username, now, jti);
    assert codec.decode(codec.encode(Jws(HS256, c, Sign(m.secret, HS256, c)))) == Some(Jws(HS256, c, Sign(m.secret, HS256, c)));
  }

  /** The time checks the JWT library makes itself while parsing, with no
      leeway configured: `exp`, when present, is still in the future, and
      `nbf`, when present, has been reached (`iat` is not checked by
      default). */
  predicate LibraryTimeValid(c: Claims, now: Time) {
    (c.expiresAt.None? || now < c.expiresAt.value) && (c.notBefore.None? || c.notBefore.value <= now)
  }

  /** Once the library's own time checks pass, neither explicit check fires:
      the minute of leeway never widens what is accepted. */
  lemma LibraryTimeChecksSubsume(c: Claims, now: Time)
    requires LibraryTimeValid(c, now)
    ensures !ExpiredAt(c, now) && !NotYetValidAt(c, now)
  {
  }

  /** Round trip: a token generated at `issued` passes the library's time
      checks at any `now` from `issued` up to (not including) `issued` + the
      TTL, and validated then by the same manager, with the library
      accepting it, it succeeds and gives back the user id, the user name,
      the issuer, the subject and an audience that contains the configured
      audience. */
  lemma ValidateGenerated(m: Manager, codec: Codec, userID: Uuid, username: string, issued: Time, jti: string, now: Time)
    requires CodecLaws(codec)
    requires issued <= now < issued + m.expiresIn
    ensures LibraryTimeValid(IssueClaims(m, userID, username, issued, jti), now)
    ensures var r := ValidateJWT(m, codec, GenerateJWT(m, codec, userID, username, issued, jti), now, true);
      && r.Ok?
      && r.value.userID == userID && r.value.username == username
      && r.value.issuer == m.issuer && r.value.subject == UuidString(userID)
      && m.audience in r.value.audience
  {
    GenerateJWTClaims(m, codec, userID, username, issued, jti);
  }

  /** A token signed under another algorithm is rejected, whatever its
      signature and claims. */
  lemma WrongAlgorithmRejected(m: Manager, codec: Codec, t: Jws, now: Time, libAccepts: bool)
    requires CodecLaws(codec)
    requires t.alg != HS256
    ensures ValidateJWT(m, codec, codec.encode(t), now, libAccepts) == Err(InvalidToken)
  {
    assert codec.decode(codec.encode(t)) == Some(t);
  }

  /** A token generated by a manager with a different secret is rejected. */
  lemma WrongSecretRejected(signer: Manager, checker: Manager, codec: Codec, userID: Uuid, username: string,
                            issued: Time, jti: string, now: Time, libAccepts: bool)
    requires CodecLaws(codec)
    requires signer.secret != checker.secret
    ensures ValidateJWT(checker, codec, GenerateJWT(signer, codec, userID, username, issued, jti), now, libAccepts)
      == Err(InvalidToken)
  {
    GenerateJWTClaims(signer, codec, userID, username, issued, jti);
  }

  /** A text that does not decode (such as "not a JWT") is rejected. */
  lemma MalformedRejected(m: Manager, codec: Codec, text: string, now: Time, libAccepts: bool)
    requires codec.decode(text) == None
    ensures ValidateJWT(m, codec, text, now, libAccepts) == Err(InvalidToken)
  {
  }

  /** The explicit expiry check: once `exp` is more than a minute past, a
      token the library let through is rejected as expired; a token without
      `exp` is never rejected as expired. */
  lemma ExpiryCheck(m: Manager, codec: Codec, text: string, now: Time)
    requires LibraryParses(m, codec, text, true)
    ensures var c := codec.decode(text).value.claims;
      (c.expiresAt.Some? && now > c.expiresAt.value + Leeway) <==>
      ValidateJWT(m, codec, text, now, true) == Err(TokenExpired)
  {
  }

  /** The explicit not-before check: more than a minute before `nbf`, an
      unexpired token is rejected as not valid yet; a token without `nbf` is
      never rejected so. */
  lemma NotBeforeCheck(m: Manager, codec: Codec, text: string, now: Time)
    requires LibraryParses(m, codec, text, true)
    ensures var c := codec.decode(text).value.claims;
      (!ExpiredAt(c, now) && c.notBefore.Some? && now < c.notBefore.value - Leeway) <==>
      ValidateJWT(m, codec, text, now, true) == Err(TokenNotValidYet)
  {
  }

  /** A token generated with a TTL more than a minute negative is never
      accepted at the moment it is issued. */
  lemma NegativeTtlRejected(m: Manager, codec: Codec, userID: Uuid, username: string, now: Time, jti: string, libAccepts: bool)
    requires CodecLaws(codec)
    requires m.expiresIn < -Leeway
    ensures ValidateJWT(m, codec, GenerateJWT(m, codec, userID, username, now, jti), now, libAccepts).Err?
  {
    GenerateJWTClaims(m, codec, userID, username, now, jti);
  }

  // -----------------------------------------------------------------------
  // JWTMiddleware

  const BearerPrefix: string := "bearer "

  /** The token text the middleware takes from an `Authorization` header
      (an absent header reads as ""): None unless the lower-cased header
      starts with "bearer ", otherwise what follows those 7 characters with
      surrounding white space trimmed. */
  function BearerToken(header: string): Option<string> {
    if !HasPrefix(ToLower(header), BearerPrefix) then None
    else Some(TrimSpace(header[|BearerPrefix|..]))
  }

  /** What the wrapped handler sees: a 401 response, or the request passed on
      with the user id and the user name in its context. */
  datatype Outcome = Unauthorized(message: string) | Forward(userID: Uuid, username: string)

  function JWTMiddleware(m: Manager, codec: Codec, header: string, now: Time, libAccepts: bool): Outcome {
    match BearerToken(header)
    case None => Unauthorized("missing or invalid authorization header")
    case Some(text) =>
      match ValidateJWT(m, codec, text, now, libAccepts)
      case Err(_) => Unauthorized("invalid token")
      case Ok(c) => Forward(c.userID, c.username)
  }

  /** The scheme check is case-insensitive on exactly the first 7
      characters, and the token is the trimmed remainder. */
  lemma BearerTokenSpec(header: string)
    ensures BearerToken(header).Some? <==>
      (|header| >= 7 && forall i :: 0 <= i < 7 ==> LowerChar(header[i]) == BearerPrefix[i])
    ensures BearerToken(header).Some? ==> BearerToken(header).value == TrimSpace(header[7..])
  {
    if |header| >= 7 && forall i :: 0 <= i < 7 ==> LowerChar(header[i]) == BearerPrefix[i] {
      assert ToLower(header)[..7] == BearerPrefix;
    }
  }

  /** A header yields no token exactly when it is shorter than 7 characters
      or its first 7 characters, lower-cased, are not "bearer ". */
  lemma BadHeaderHasNoToken(header: string)
    ensures BearerToken(header) == None <==> (|header| < 7 || ToLower(header[..7]) != BearerPrefix)
  {
    if |header| >= 7 {
      assert ToLower(header)[..7] == ToLower(header[..7]);
    }
  }

  /** Such a header is rejected with 401 before any validation. */
  lemma BadHeaderRejected(m: Manager, codec: Codec, header: string, now: Time, libAccepts: bool)
    requires |header| < 7 || ToLower(header[..7]) != BearerPrefix
    ensures JWTMiddleware(m, codec, header, now, libAccepts) == Unauthorized("missing or invalid authorization header")
  {
    BadHeaderHasNoToken(header);
  }

  /** Concrete headers without a token: a missing header, another scheme, a
      leading space, a bare scheme, and a tab in place of the space. */
  lemma BearerTokenExamples()
    ensures BearerToken("") == None
    ensures BearerToken("Basic dXNlcjpwYXNz") == None
    ensures BearerToken(" Bearer abc") == None
    ensures BearerToken("Bearer") == None
    ensures BearerToken("bearer\tabc") == None
  {
    BearerTokenSpec("");
    BearerTokenSpec("Bearer");
    var basic, lead, tab := "Basic dXNlcjpwYXNz", " Bearer abc", "bearer\tabc";
    BearerTokenSpec(basic);
    assert LowerChar(basic[1]) != BearerPrefix[1];
    BearerTokenSpec(lead);
    assert LowerChar(lead[0]) != BearerPrefix[0];
    BearerTokenSpec(tab);
    assert LowerChar(tab[6]) != BearerPrefix[6];
  }

  /** A header made of any capitalisation of "bearer ", white space, a
      token that neither starts nor ends with white space, and white space,
      carries exactly that token. */
  lemma {:induction false} BearerTokenOfHeader(scheme: string, pad: string, tok: string, post: string)
    requires ToLower(scheme) == BearerPrefix
    requires forall k :: 0 <= k < |pad| ==> IsSpace(pad[k])
    requires forall k :: 0 <= k < |post| ==> IsSpace(post[k])
    requires tok != [] && !IsSpace(tok[0]) && !IsSpace(tok[|tok| - 1])
    ensures BearerToken(scheme + pad + tok + post) == Some(tok)
  {
    var header := scheme + pad + tok + post;
    assert |scheme| == 7;
    assert ToLower(header)[..7] == ToLower(scheme);
    assert header[7..] == pad + tok + post;
    TrimSpaceAround(pad, tok, post);
  }

  /** The middleware passes the request on exactly when the header carries a
      bearer token that validates, and then with that token's user id and
      user name and nothing else. */
  lemma MiddlewareForwards(m: Manager, codec: Codec, header: string, now: Time, libAccepts: bool)
    ensures JWTMiddleware(m, codec, header, now, libAccepts).Forward? <==>
      (BearerToken(header).Some? && ValidateJWT(m, codec, BearerToken(header).value, now, libAccepts).Ok?)
    ensures JWTMiddleware(m, codec, header, now, libAccepts).Forward? ==>
      var c := ValidateJWT(m, codec, BearerToken(header).value, now, libAccepts).value;
      JWTMiddleware(m, codec, header, now, libAccepts) == Forward(c.userID, c.username)
  {
  }

  /** "bEaReR   <token>": any capitalisation of the scheme, any amount of
      white space before (and after) a freshly generated token, and the
      request is passed on with the token's user. */
  lemma {:induction false} MiddlewareAcceptsGenerated(m: Manager, codec: Codec, scheme: string, pad: string, post: string,
                                   userID: Uuid, username: string, issued: Time, jti: string, now: Time)
    requires CodecLaws(codec)
    requires ToLower(scheme) == BearerPrefix
    requires forall k :: 0 <= k < |pad| ==> IsSpace(pad[k])
    requires forall k :: 0 <= k < |post| ==> IsSpace(post[k])
    requires issued <= now < issued + m.expiresIn
    ensures JWTMiddleware(m, codec, scheme + pad + GenerateJWT(m, codec, userID, username, issued, jti) + post, now, true)
      == Forward(userID, username)
  {
    var tok := GenerateJWT(m, codec, userID, username, issued, jti);
    assert !IsSpace(tok[0]) by {
      assert IsCompactChar(tok[0]);
    }
    assert !IsSpace(tok[|tok| - 1]) by {
      assert IsCompactChar(tok[|tok| - 1]);
    }
    BearerTokenOfHeader(scheme, pad, tok, post);
    ValidateGenerated(m, codec, userID, username, issued, jti, now);
  }
}
