/**
 * A symbolic model of the JSON Web Tokens (RFC 7519) that
 * `JwtSecurityTokenHandler` writes and validates, and of the .NET string
 * operations the controllers apply to token text.
 *
 * A token's compact serialization is one atomic symbol `Jws(token)` of
 * the token text; the characters around it (a scheme prefix, white space)
 * are ordinary `Ch` symbols. HMAC, base64url and JSON are not modelled:
 * the signature of a token is the key it was signed with, so
 * verification succeeds exactly when the verifier holds that key.
 */
module Jwt {
  import opened Wrappers

  newtype byte = x: int | 0 <= x < 256

  /** A claim: its type and its value (`System.Security.Claims.Claim`). */
  datatype Claim = Claim(claimType: string, value: string)

  /** `JwtRegisteredClaimNames.Sub`, the subject claim of section 4.1.2 of RFC 7519. */
  const SubClaimType: string := "sub"
  /** `JwtRegisteredClaimNames.Jti`, the token identifier claim of section 4.1.7 of RFC 7519. */
  const JtiClaimType: string := "jti"
  /** `ClaimTypes.Role`. */
  const RoleClaimType: string := "http://schemas.microsoft.com/ws/2008/06/identity/claims/role"
  /** `SecurityAlgorithms.HmacSha256`, the `alg` of HMAC SHA-256 (section 3.2 of RFC 7518). */
  const HmacSha256: string := "HS256"

  /**
   * A signed token: its payload (claims, `iss`, `aud`, `exp` in seconds),
   * the `alg` of its header, and the symmetric key that signed it.
   */
  datatype Token = Token(claims: seq<Claim>, issuer: string, audience: string, exp: int, alg: string, key: seq<byte>)

  /** One symbol of token text: a character, or a token's whole compact serialization. */
  datatype Sym = Ch(c: char) | Jws(token: Token)

  /** Text that may carry a serialized token, as the request and response bodies do. */
  type Text = seq<Sym>

  /** Plain characters as text. */
  function Chars(s: string): (t: Text)
    ensures |t| == |s|
    ensures forall i :: 0 <= i < |s| ==> t[i] == Ch(s[i])
  {
    if s == [] then [] else [Ch(s[0])] + Chars(s[1..])
  }

  /** `JwtSecurityTokenHandler.WriteToken`: the compact serialization. */
  function WriteToken(t: Token): Text {
    [Jws(t)]
  }

  // ---------------------------------------------------------------------
  // Keys: Encoding.ASCII.GetBytes
  // ---------------------------------------------------------------------

  /** The question mark that `Encoding.ASCII` writes for a character outside ASCII. */
  const ReplacementByte: byte := 0x3F

  predicate IsAscii(s: string) {
    forall i :: 0 <= i < |s| ==> s[i] as int < 128
  }

  /** `Encoding.ASCII.GetBytes`: one byte per character; a non-ASCII character becomes `?`. */
  function AsciiBytes(s: string): (b: seq<byte>)
    ensures |b| == |s|
    ensures forall i :: 0 <= i < |s| && s[i] as int < 128 ==> b[i] as int == s[i] as int
    ensures forall i :: 0 <= i < |s| && s[i] as int >= 128 ==> b[i] == ReplacementByte
  {
    if s == [] then []
    else [if s[0] as int < 128 then s[0] as int as byte else ReplacementByte] + AsciiBytes(s[1..])
  }

  /** Distinct ASCII secrets give distinct signing keys. */
  lemma AsciiBytesInjective(s1: string, s2: string)
    requires IsAscii(s1) && IsAscii(s2)
    requires AsciiBytes(s1) == AsciiBytes(s2)
    ensures s1 == s2
  {
    assert |s1| == |s2|;
    forall i | 0 <= i < |s1|
      ensures s1[i] == s2[i]
    {
      assert AsciiBytes(s1)[i] == AsciiBytes(s2)[i];
    }
  }

  /**
   * Secrets of the same length that differ only where both have a
   * non-ASCII character sign with the same key.
   */
  lemma NonAsciiDifferencesCollide(s1: string, s2: string)
    requires |s1| == |s2|
    requires forall i :: 0 <= i < |s1| && s1[i] != s2[i] ==> s1[i] as int >= 128 && s2[i] as int >= 128
    ensures AsciiBytes(s1) == AsciiBytes(s2)
  {
    forall i | 0 <= i < |s1|
      ensures AsciiBytes(s1)[i] == AsciiBytes(s2)[i]
    {
    }
  }

  // ---------------------------------------------------------------------
  // Case-insensitive comparison and Trim
  // ---------------------------------------------------------------------

  /** Upper-casing restricted to ASCII letters. */
  function ToUpperAscii(c: char): (u: char)
    ensures 'a' <= c <= 'z' ==> u as int == c as int - 32
    ensures !('a' <= c <= 'z') ==> u == c
  {
    if 'a' <= c <= 'z' then (c as int - 32) as char else c
  }

  /** Case-insensitive string equality (ASCII case folding). */
  predicate EqualsIgnoreCase(a: string, b: string) {
    |a| == |b| && forall i :: 0 <= i < |a| ==> ToUpperAscii(a[i]) == ToUpperAscii(b[i])
  }

  /** `char.IsWhiteSpace`: the Unicode space separators, line and paragraph separators, U+0009-U+000D and U+0085. */
  predicate IsWhiteSpace(c: char) {
    var n := c as int;
    (0x09 <= n <= 0x0D) || n == 0x20 || n == 0x85 || n == 0xA0 || n == 0x1680 ||
    (0x2000 <= n <= 0x200A) || n == 0x2028 || n == 0x2029 || n == 0x202F || n == 0x205F || n == 0x3000
  }

  /** A white-space character of text; a serialized token is never white space. */
  predicate IsSpace(s: Sym) {
    s.Ch? && IsWhiteSpace(s.c)
  }

  /** The number of white-space symbols `t` starts with. */
  function LeadingSpace(t: Text): (k: nat)
    ensures k <= |t|
    ensures forall i :: 0 <= i < k ==> IsSpace(t[i])
    ensures k < |t| ==> !IsSpace(t[k])
  {
    if t == [] || !IsSpace(t[0]) then 0 else 1 + LeadingSpace(t[1..])
  }

  /** The number of white-space symbols `t` ends with. */
  function TrailingSpace(t: Text): (k: nat)
    ensures k <= |t|
    ensures forall i :: |t| - k <= i < |t| ==> IsSpace(t[i])
    ensures k < |t| ==> !IsSpace(t[|t| - k - 1])
  {
    if t == [] || !IsSpace(t[|t| - 1]) then 0 else 1 + TrailingSpace(t[..|t| - 1])
  }

  /**
   * `r` is `t` with `lo` white-space symbols removed from its start and
   * only white space removed from its end.
   */
  ghost predicate TrimsTo(t: Text, r: Text, lo: int) {
    0 <= lo && lo + |r| <= |t| && r == t[lo..lo + |r|] &&
    (forall i :: 0 <= i < lo ==> IsSpace(t[i])) &&
    (forall i :: lo + |r| <= i < |t| ==> IsSpace(t[i]))
  }

  /**
   * `string.Trim()`: the text between the leading and the trailing white
   * space. What it removes is white space, and what it keeps neither
   * starts nor ends with white space.
   */
  function Trim(t: Text): (r: Text)
    ensures exists lo :: TrimsTo(t, r, lo)
    ensures r != [] ==> !IsSpace(r[0]) && !IsSpace(r[|r| - 1])
  {
    var lo := LeadingSpace(t);
    var rest := t[lo..];
    var k := TrailingSpace(rest);
    var r := rest[..|rest| - k];
    assert |r| == |t| - lo - k;
    assert r == t[lo..lo + |r|];
    forall i | lo + |r| <= i < |t|
      ensures IsSpace(t[i])
    {
      assert t[i] == rest[i - lo];
    }
    assert TrimsTo(t, r, lo);
    assert r != [] ==> r[0] == t[lo] && r[|r| - 1] == rest[|rest| - k - 1];
    r
  }

  /** Text that neither starts nor ends with white space is its own trim. */
  lemma TrimNoSpace(t: Text)
    requires t != [] ==> !IsSpace(t[0]) && !IsSpace(t[|t| - 1])
    ensures Trim(t) == t
  {
    if t != [] {
      assert LeadingSpace(t) == 0;
      assert t[0..] == t;
      assert TrailingSpace(t) == 0;
    }
  }

  /** Trimming twice is trimming once. */
  lemma TrimIdempotent(t: Text)
    ensures Trim(Trim(t)) == Trim(t)
  {
    TrimNoSpace(Trim(t));
  }

  // ---------------------------------------------------------------------
  // The bearer scheme prefix (section 2.1 of RFC 6750)
  // ---------------------------------------------------------------------

  const BearerPrefix: string := "Bearer "

  /** `StartsWith("Bearer ", StringComparison.OrdinalIgnoreCase)`. */
  predicate StartsWithBearer(t: Text) {
    |t| >= |BearerPrefix| &&
    forall i :: 0 <= i < |BearerPrefix| ==> t[i].Ch? && ToUpperAscii(t[i].c) == ToUpperAscii(BearerPrefix[i])
  }

  /**
   * One removal of the scheme: when the text starts with "Bearer " in any
   * letter case, the rest of it, trimmed; otherwise the text unchanged.
   */
  function StripBearer(t: Text): (r: Text)
    ensures StartsWithBearer(t) ==> exists lo :: TrimsTo(t[|BearerPrefix|..], r, lo)
    ensures StartsWithBearer(t) && r != [] ==> !IsSpace(r[0]) && !IsSpace(r[|r| - 1])
    ensures !StartsWithBearer(t) ==> r == t
  {
    if StartsWithBearer(t) then Trim(t[|BearerPrefix|..]) else t
  }

  /** A serialized token loses exactly its "Bearer " prefix, and a bare one is left alone. */
  lemma StripBearerToken(t: Token)
    ensures StripBearer(Chars(BearerPrefix) + WriteToken(t)) == WriteToken(t)
    ensures StripBearer(WriteToken(t)) == WriteToken(t)
  {
    var text := Chars(BearerPrefix) + WriteToken(t);
    assert StartsWithBearer(text);
    assert text[|BearerPrefix|..] == WriteToken(t);
    TrimNoSpace(WriteToken(t));
  }

  /** The scheme is removed once: "Bearer Bearer <token>" needs two removals to reach the token. */
  lemma StripBearerTwice(t: Token)
    ensures var text := Chars(BearerPrefix + BearerPrefix) + WriteToken(t);
      && StripBearer(text) == Chars(BearerPrefix) + WriteToken(t)
      && StripBearer(StripBearer(text)) == WriteToken(t)
  {
    var prefix := Chars(BearerPrefix);
    var once := prefix + WriteToken(t);
    var text := Chars(BearerPrefix + BearerPrefix) + WriteToken(t);
    assert text == prefix + once by {
      CharsAppend(BearerPrefix, BearerPrefix);
    }
    assert StripBearer(text) == once by {
      PrefixedStartsWithBearer(once);
      assert text[|BearerPrefix|..] == once;
      TrimNoSpace(once);
    }
    StripBearerToken(t);
  }

  lemma CharsAppend(a: string, b: string)
    ensures Chars(a + b) == Chars(a) + Chars(b)
  {
    assert forall i :: 0 <= i < |a + b| ==> Chars(a + b)[i] == (Chars(a) + Chars(b))[i];
  }

  /** Text that begins with the literal prefix starts with the scheme. */
  lemma PrefixedStartsWithBearer(rest: Text)
    ensures StartsWithBearer(Chars(BearerPrefix) + rest)
  {
    var text := Chars(BearerPrefix) + rest;
    forall i | 0 <= i < |BearerPrefix|
      ensures text[i].Ch? && ToUpperAscii(text[i].c) == ToUpperAscii(BearerPrefix[i])
    {
      assert text[i] == Chars(BearerPrefix)[i] == Ch(BearerPrefix[i]);
    }
  }

  // ---------------------------------------------------------------------
  // JwtSecurityTokenHandler.ValidateToken
  // ---------------------------------------------------------------------

  /** Why a token fails validation. */
  datatype TokenError =
    | EmptyKey          // a SymmetricSecurityKey cannot be made from zero bytes
    | Malformed         // the text is not one compact serialization
    | InvalidSignature  // not signed with the verifier's key, or under an `alg` the library has no HMAC for
    | Expired           // lifetime validation is on and `exp` has passed
    | InvalidAlgorithm  // its `alg` is not HS256

  /**
   * The HMAC algorithm names the library verifies a symmetric key under,
   * compared in exact case: the JWA names of section 3.2 of RFC 7518 and
   * their XML Signature URIs.
   */
  predicate IsHmacAlgorithm(alg: string) {
    alg in {"HS256", "HS384", "HS512",
             "http://www.w3.org/2001/04/xmldsig-more#hmac-sha256",
             "http://www.w3.org/2001/04/xmldsig-more#hmac-sha384",
             "http://www.w3.org/2001/04/xmldsig-more#hmac-sha512"}
  }

  /**
   * Of the HMAC names, only "HS256" itself equals "HS256" ignoring case,
   * so a case-insensitive comparison after validation admits exactly it.
   */
  lemma HmacNameFoldsOnlyToItself(alg: string)
    requires IsHmacAlgorithm(alg) && EqualsIgnoreCase(alg, HmacSha256)
    ensures alg == HmacSha256
  {
    assert ToUpperAscii(alg[2]) == ToUpperAscii(HmacSha256[2]);
  }

  /**
   * `ValidateToken` with issuer and audience validation off, the given
   * signing key, lifetime validation on or off, and a zero clock skew.
   * Only text that is one token signed with `key` under an HMAC `alg`
   * passes, and with lifetime validation on only when `now` has not
   * passed its `exp`.
   */
  function ValidateToken(text: Text, key: seq<byte>, validateLifetime: bool, now: int): (r: Result<Token, TokenError>)
    ensures r.Ok? ==> text == WriteToken(r.value) && r.value.key == key && |key| > 0 && IsHmacAlgorithm(r.value.alg)
    ensures r.Ok? && validateLifetime ==> now <= r.value.exp
    ensures r == Err(Malformed) <==> |key| > 0 && (|text| != 1 || !text[0].Jws?)
    ensures r == Err(InvalidSignature) <==>
      |key| > 0 && |text| == 1 && text[0].Jws? && (text[0].token.key != key || !IsHmacAlgorithm(text[0].token.alg))
  {
    if |key| == 0 then Err(EmptyKey)
    else if |text| != 1 || !text[0].Jws? then Err(Malformed)
    else
      var t := text[0].token;
      if t.key != key || !IsHmacAlgorithm(t.alg) then Err(InvalidSignature)
      else if validateLifetime && t.exp < now then Err(Expired)
      else Ok(t)
  }

  /**
   * Completeness: a written token signed with a non-empty key under an
   * HMAC `alg` validates under that key at any time when lifetime
   * validation is off, and fails on its signature under any other key.
   */
  lemma ValidateWrittenToken(t: Token, key: seq<byte>, now: int)
    requires |t.key| > 0 && IsHmacAlgorithm(t.alg)
    ensures ValidateToken(WriteToken(t), t.key, false, now) == Ok(t)
    ensures |key| > 0 && key != t.key ==> ValidateToken(WriteToken(t), key, false, now) == Err(InvalidSignature)
  {
  }
}
