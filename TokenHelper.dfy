/**
 * The two token generators of `TokenHelper`: an access token carrying the
 * caller's claims, and a refresh token carrying none. The clock is the
 * `now` parameter, in seconds.
 */
module TokenHelper {
  import opened Wrappers
  import opened Jwt

  const SecondsPerMinute: int := 60

  /** `DateTime.AddMinutes` on a time in seconds. */
  function AddMinutes(now: int, minutes: int): int {
    now + minutes * SecondsPerMinute
  }

  /** `new SymmetricSecurityKey(Encoding.ASCII.GetBytes(secretKey))`. */
  function SigningKey(secretKey: string): (key: seq<byte>)
    ensures |key| == |secretKey|
  {
    AsciiBytes(secretKey)
  }

  /**
   * `GenerateAccessToken`: one serialized token, signed with HS256 under
   * the secret's key, carrying the issuer, the audience, the claims in
   * their order, and an expiry `expiryMinutes` after `now`.
   */
  function GenerateAccessToken(claims: seq<Claim>, secretKey: string, issuer: string, audience: string,
                               expiryMinutes: int, now: int): (text: Text)
    ensures |text| == 1 && text[0].Jws?
    ensures text[0].token.claims == claims
    ensures text[0].token.issuer == issuer && text[0].token.audience == audience
    ensures text[0].token.exp == AddMinutes(now, expiryMinutes)
    ensures text[0].token.alg == HmacSha256 && text[0].token.key == SigningKey(secretKey)
  {
    WriteToken(Token(claims, issuer, audience, AddMinutes(now, expiryMinutes), HmacSha256, SigningKey(secretKey)))
  }

  /**
   * `GenerateRefreshToken`: a serialized token with no claims, signed with
   * HS256 under the secret's key, and its expiry, which is the same
   * instant as the token's own `exp`.
   */
  function GenerateRefreshToken(secretKey: string, issuer: string, audience: string,
                                expiryMinutes: int, now: int): (r: (Text, int))
    ensures |r.0| == 1 && r.0[0].Jws?
    ensures r.0[0].token.claims == []
    ensures r.0[0].token.exp == r.1 == AddMinutes(now, expiryMinutes)
    ensures r.0[0].token.issuer == issuer && r.0[0].token.audience == audience
    ensures r.0[0].token.alg == HmacSha256 && r.0[0].token.key == SigningKey(secretKey)
  {
    var tokenExpiration := AddMinutes(now, expiryMinutes);
    (WriteToken(Token([], issuer, audience, tokenExpiration, HmacSha256, SigningKey(secretKey))), tokenExpiration)
  }

  /**
   * An access token validates under its own secret's key at every time
   * when lifetime validation is off, also after it has expired, and yields
   * the claims it was made with; lifetime validation rejects it once its
   * expiry has passed; under a different key its signature fails.
   */
  lemma AccessTokenValidates(claims: seq<Claim>, secretKey: string, otherKey: string, issuer: string, audience: string,
                             expiryMinutes: int, issuedAt: int, now: int)
    requires secretKey != ""
    ensures var text := GenerateAccessToken(claims, secretKey, issuer, audience, expiryMinutes, issuedAt);
      && ValidateToken(text, SigningKey(secretKey), false, now).Ok?
      && ValidateToken(text, SigningKey(secretKey), false, now).value.claims == claims
      && (now > AddMinutes(issuedAt, expiryMinutes) ==> ValidateToken(text, SigningKey(secretKey), true, now) == Err(Expired))
      && (otherKey != "" && SigningKey(otherKey) != SigningKey(secretKey) ==>
            ValidateToken(text, SigningKey(otherKey), false, now) == Err(InvalidSignature))
  {
    var text := GenerateAccessToken(claims, secretKey, issuer, audience, expiryMinutes, issuedAt);
    ValidateWrittenToken(text[0].token, SigningKey(otherKey), now);
  }
}
