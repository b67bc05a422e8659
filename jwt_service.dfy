/** backend/.../security/JwtService.java: issues and reads HMAC-signed JWTs
    (RFC 7519 claims `sub`, `iat`, `exp`, signed as in section 3.2 of RFC 7518).

    The service reads two configuration values and the clock; all three are
    explicit parameters here (`Config` and `now`). The jjwt builder and parser
    are a foreign library: a token is modelled as a symbolic term whose
    signature is the pair (key, claims), and verification recomputes that term
    under the verifier's key. Times: `now` is epoch milliseconds (what
    `Date`/`Instant` carry), claims are NumericDate seconds (what a JWT carries),
    so issuing truncates to whole seconds. */
module JwtService {
  import opened Wrappers
  import opened JavaText

  /** Minimum HMAC key length in bytes (256 bits). */
  const MinKeyBytes := 32
  const WeakSecretMessage := "JWT secret must be at least 32 bytes"
  /** Default of `app.jwt.secret`. */
  const DefaultSecret := "replace-with-a-32-byte-minimum-dev-secret-key"
  /** Default of `app.jwt.access-token-expiration-seconds`. */
  const DefaultAccessTokenExpirationSeconds := 3600

  /** The two injected configuration values. */
  datatype Config = Config(secret: string, accessTokenExpirationSeconds: int)

  function DefaultConfig(): Config {
    Config(DefaultSecret, DefaultAccessTokenExpirationSeconds)
  }

  /** The registered claims the service sets; dates in epoch seconds. */
  datatype Claims = Claims(subject: string, issuedAt: int, expiration: int)

  type Key = seq<byte>

  /** A symbolic HMAC tag: only the holder of `key` can produce it for `payload`. */
  datatype Signature = Hmac(key: Key, payload: Claims)

  /** A compact token as it comes back from a client: either a signed JWT or
      some text that does not parse as one. */
  datatype Token = Jws(payload: Claims, signature: Signature) | Unparseable(text: string)

  /** `Date.getTime() / 1000` as Java computes it (division truncates toward zero):
      the NumericDate stored for an instant given in milliseconds. */
  function EpochSeconds(millis: int): (s: int)
    ensures millis >= 0 ==> s * 1000 <= millis < s * 1000 + 1000
    ensures millis < 0 ==> s * 1000 - 1000 < millis <= s * 1000
  {
    if millis >= 0 then millis / 1000 else -((-millis) / 1000)
  }

  /** `getSigningKey`: the UTF-8 bytes of the secret, refused when shorter than 32. */
  function GetSigningKey(config: Config): (r: Result<Key>)
    ensures r.Ok? <==> |Utf8Encode(config.secret)| >= MinKeyBytes
    ensures r.Ok? ==> r.value == Utf8Encode(config.secret)
    ensures r.Err? ==> r.error == IllegalStateException(WeakSecretMessage)
  {
    var keyBytes := Utf8Encode(config.secret);
    if |keyBytes| < MinKeyBytes then Err(IllegalStateException(WeakSecretMessage))
    else Ok(keyBytes)
  }

  /** `getAccessTokenExpirationSeconds`. */
  function GetAccessTokenExpirationSeconds(config: Config): int {
    config.accessTokenExpirationSeconds
  }

  /** `generateToken(subject)` at clock reading `now` (epoch milliseconds). */
  function GenerateToken(config: Config, subject: string, now: nat): (r: Result<Token>)
    ensures r.Err? <==> GetSigningKey(config).Err?
    ensures r.Err? ==> r.error == IllegalStateException(WeakSecretMessage)
    ensures r.Ok? ==> (r.value.Jws? && r.value.payload ==
      Claims(subject, EpochSeconds(now), EpochSeconds(now + config.accessTokenExpirationSeconds * 1000)))
  {
    var expiration := now + config.accessTokenExpirationSeconds * 1000;
    var claims := Claims(subject, EpochSeconds(now), EpochSeconds(expiration));
    var key :- GetSigningKey(config);
    Ok(Jws(claims, Hmac(key, claims)))
  }

  /** `extractAllClaims`: parses and verifies the token under the configured key. */
  function ExtractAllClaims(config: Config, token: Token): (r: Result<Claims>)
    ensures r.Ok? <==> GetSigningKey(config).Ok? && token.Jws? &&
                       token.signature == Hmac(GetSigningKey(config).value, token.payload)
    ensures r.Ok? ==> r.value == token.payload
  {
    var key :- GetSigningKey(config);
    match token
    case Unparseable(_) => Err(MalformedJwtException)
    case Jws(payload, signature) =>
      if signature == Hmac(key, payload) then Ok(payload) else Err(SignatureException)
  }

  /** `extractUsername`: the `sub` claim of a token that verifies. */
  function ExtractUsername(config: Config, token: Token): (r: Result<string>)
    ensures r.Ok? <==> ExtractAllClaims(config, token).Ok?
    ensures r.Ok? ==> r.value == token.payload.subject
  {
    var claims :- ExtractAllClaims(config, token);
    Ok(claims.subject)
  }

  /** `isTokenExpired`: the expiration lies strictly before `now`; a token whose
      expiration equals the current millisecond is still accepted. */
  function IsTokenExpired(config: Config, token: Token, now: nat): (r: Result<bool>)
    ensures r.Ok? <==> ExtractAllClaims(config, token).Ok?
    ensures r.Ok? ==> (r.value <==> token.payload.expiration * 1000 < now)
  {
    var claims :- ExtractAllClaims(config, token);
    Ok(claims.expiration * 1000 < now)
  }

  /** `isTokenValid(token, userDetails)`: the subject names the user and the
      token has not expired. Only the username of the user details is read. */
  function IsTokenValid(config: Config, token: Token, username: string, now: nat): (r: Result<bool>)
    ensures r.Ok? <==> ExtractAllClaims(config, token).Ok?
    ensures r == Ok(true) <==>
      ExtractUsername(config, token) == Ok(username) && IsTokenExpired(config, token, now) == Ok(false)
  {
    var subject :- ExtractUsername(config, token);
    // the second parse of the same token under the same key cannot fail
    if subject == username then Ok(!IsTokenExpired(config, token, now).value)
    else
      Ok(false)
  }

  // ---------------------------------------------------------------------------
  // Properties
  // ---------------------------------------------------------------------------

  /** With a secret shorter than 32 UTF-8 bytes no token is issued and none is
      accepted: both paths derive the key and fail with the same exception. */
  lemma ShortSecretIssuesAndAcceptsNothing(config: Config, subject: string, now: nat)
    requires |Utf8Encode(config.secret)| < MinKeyBytes
    ensures GenerateToken(config, subject, now) == Err(IllegalStateException(WeakSecretMessage))
    ensures forall token :: ExtractAllClaims(config, token) == Err(IllegalStateException(WeakSecretMessage))
  {
  }

  /** The default secret is long enough, so the default configuration issues tokens. */
  lemma DefaultSecretIsLongEnough()
    ensures GetSigningKey(DefaultConfig()).Ok?
    ensures GetAccessTokenExpirationSeconds(DefaultConfig()) == 3600
  {
    assert |DefaultSecret| == 45;
  }

  /** A token issued under a configuration reads back the subject it was issued for. */
  lemma IssuedSubjectRoundTrip(config: Config, subject: string, now: nat)
    requires GetSigningKey(config).Ok?
    ensures GenerateToken(config, subject, now).Ok?
    ensures ExtractUsername(config, GenerateToken(config, subject, now).value) == Ok(subject)
  {
  }

  /** A verifier whose key bytes differ from the issuer's rejects the token. */
  lemma OtherKeyRejects(issuer: Config, verifier: Config, subject: string, now: nat)
    requires GenerateToken(issuer, subject, now).Ok?
    requires Utf8Encode(issuer.secret) != Utf8Encode(verifier.secret)
    ensures ExtractAllClaims(verifier, GenerateToken(issuer, subject, now).value).Err?
    ensures IsTokenValid(verifier, GenerateToken(issuer, subject, now).value, subject, now).Err?
  {
  }

  /** A token issued at `now` with a TTL of `ttl >= 0` seconds lives between
      `ttl - 1` and `ttl` seconds: it is not expired at any instant up to
      `now + ttl*1000 - 999` ms and expired at every instant after `now + ttl*1000`
      ms (the expiration is truncated to whole seconds). */
  lemma {:induction false} FreshTokenLifetime(config: Config, subject: string, now: nat, at: nat)
    requires GetSigningKey(config).Ok?
    requires config.accessTokenExpirationSeconds >= 0
    ensures var token := GenerateToken(config, subject, now).value;
      && (at <= now + config.accessTokenExpirationSeconds * 1000 - 999 ==>
            IsTokenExpired(config, token, at) == Ok(false))
      && (at > now + config.accessTokenExpirationSeconds * 1000 ==>
            IsTokenExpired(config, token, at) == Ok(true))
  {
    var token := GenerateToken(config, subject, now).value;
    var millis := now + config.accessTokenExpirationSeconds * 1000;
    var e := EpochSeconds(millis);
    assert token.payload.expiration == e;
    assert e * 1000 <= millis < e * 1000 + 1000;
  }

  /** The holder of a fresh token issued with a TTL of at least one second passes
      `isTokenValid` at the instant of issue. */
  lemma FreshTokenIsValid(config: Config, subject: string, now: nat)
    requires GetSigningKey(config).Ok?
    requires config.accessTokenExpirationSeconds >= 1
    ensures IsTokenValid(config, GenerateToken(config, subject, now).value, subject, now) == Ok(true)
  {
    FreshTokenLifetime(config, subject, now, now);
  }

  /** With a TTL of zero a token can be expired the moment it is issued: issued at
      1 ms past the epoch, its expiration truncates to second 0. */
  lemma ZeroTtlTokenExpiredAtIssue(config: Config, subject: string)
    requires GetSigningKey(config).Ok?
    requires config.accessTokenExpirationSeconds == 0
    ensures GenerateToken(config, subject, 1).Ok?
    ensures IsTokenValid(config, GenerateToken(config, subject, 1).value, subject, 1) == Ok(false)
  {
    assert EpochSeconds(1) == 0;
  }
}
