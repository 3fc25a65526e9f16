/**
 * `AuthController`: an in-memory user directory, the process-wide
 * refresh-token registry (username to token and expiration), and the
 * login, refresh and register transitions over them.
 *
 * Each transition is first a function of the state it reads (the
 * directory, the registry, the JWT settings, the request and the clock);
 * the class at the end holds the state in fields and its methods update
 * them as the controller does.
 */
module Auth {
  import opened Wrappers
  import opened Jwt
  import opened TokenHelper

  /** A directory entry: credentials and the roles in their listed order. */
  datatype User = User(username: string, password: string, roles: seq<string>)

  /** The "Jwt" configuration section; the key may be absent. */
  datatype JwtSettings = JwtSettings(key: Option<string>, issuer: string, audience: string,
                                     accessTokenExpiryMinutes: int, refreshTokenExpiryMinutes: int)

  /** A registry entry: the refresh token handed out and when it expires. */
  datatype RefreshEntry = RefreshEntry(token: Text, expiration: int)

  type Registry = map<string, RefreshEntry>

  datatype LoginModel = LoginModel(username: string, password: string)

  datatype RegisterModel = RegisterModel(username: string, password: string)

  /** The refresh request body; the body and each of its fields may be null. */
  datatype RefreshModel = RefreshModel(username: Option<string>, accessToken: Option<Text>, refreshToken: Option<Text>)

  /** The body of a successful login or refresh. */
  datatype Session = Session(accessToken: Text, refreshToken: Text, accessTokenExpiration: int, refreshTokenExpiration: int)

  /** The failures of the three endpoints. */
  datatype AuthError =
    | Unauthorized                      // no directory user has these credentials
    | KeyNotConfigured                  // "JWT key is not configured."
    | InvalidClientRequest              // "Invalid client request"
    | InvalidAccessToken(cause: TokenError)  // "Invalid access token or refresh token: ..."
    | InvalidRefreshToken               // "Invalid refresh token"
    | UserAlreadyExists                 // "User already exists."
    | KeyMissing                        // a null key: an exception no handler catches

  /** The HTTP status each failure is answered with. */
  function StatusCode(e: AuthError): (code: int)
    ensures code == 401 <==> e == Unauthorized
    ensures code == 500 <==> e == KeyMissing
    ensures code == 400 <==> !(e == Unauthorized || e == KeyMissing)
  {
    match e
    case Unauthorized => 401
    case KeyMissing => 500
    case _ => 400
  }

  /** The directory a controller starts with. */
  const SeedUsers: seq<User> := [User("string", "string", ["Admin"]), User("user2", "password2", ["User"])]

  /** The roles a registered user gets. */
  const DefaultRoles: seq<string> := ["User"]

  // ---------------------------------------------------------------------
  // Credentials and claims
  // ---------------------------------------------------------------------

  predicate HasCredentials(u: User, username: string, password: string) {
    u.username == username && u.password == password
  }

  /** `users[i]` has the credentials and no earlier user does. */
  predicate IsFirstMatch(users: seq<User>, username: string, password: string, i: int) {
    0 <= i < |users| && HasCredentials(users[i], username, password) &&
    forall j :: 0 <= j < i ==> !HasCredentials(users[j], username, password)
  }

  /**
   * `FirstOrDefault` over the directory by exact username and password:
   * nothing when no user has both, otherwise the first user who does.
   */
  function FindUser(users: seq<User>, username: string, password: string): (r: Option<User>)
    ensures r.None? <==> forall i :: 0 <= i < |users| ==> !HasCredentials(users[i], username, password)
    ensures r.Some? ==> exists i :: IsFirstMatch(users, username, password, i) && users[i] == r.value
  {
    if users == [] then None
    else if HasCredentials(users[0], username, password) then
      assert IsFirstMatch(users, username, password, 0);
      Some(users[0])
    else
      var r := FindUser(users[1..], username, password);
      assert r.Some? ==> exists i :: IsFirstMatch(users, username, password, i) && users[i] == r.value by {
        if r.Some? {
          var i :| IsFirstMatch(users[1..], username, password, i) && users[1..][i] == r.value;
          assert IsFirstMatch(users, username, password, i + 1);
        }
      }
      assert r.None? ==> forall i :: 0 <= i < |users| ==> !HasCredentials(users[i], username, password) by {
        if r.None? {
          forall i | 0 <= i < |users|
            ensures !HasCredentials(users[i], username, password)
          {
            if i > 0 {
              assert users[i] == users[1..][i - 1];
            }
          }
        }
      }
      r
  }

  /** `roles.Select(role => new Claim(ClaimTypes.Role, role))`. */
  function RoleClaims(roles: seq<string>): (c: seq<Claim>)
    ensures |c| == |roles|
    ensures forall i :: 0 <= i < |roles| ==> c[i] == Claim(RoleClaimType, roles[i])
  {
    if roles == [] then [] else [Claim(RoleClaimType, roles[0])] + RoleClaims(roles[1..])
  }

  /** The access-token claims: the subject, the token identifier, then one role claim per role in order. */
  function BuildClaims(user: User, jti: string): (c: seq<Claim>)
    ensures |c| == 2 + |user.roles|
    ensures c[0] == Claim(SubClaimType, user.username) && c[1] == Claim(JtiClaimType, jti)
    ensures forall i :: 0 <= i < |user.roles| ==> c[2 + i] == Claim(RoleClaimType, user.roles[i])
  {
    [Claim(SubClaimType, user.username), Claim(JtiClaimType, jti)] + RoleClaims(user.roles)
  }

  /** `string.IsNullOrEmpty(_jwtSettings.Key)` is false. */
  predicate KeyConfigured(settings: JwtSettings) {
    settings.key.Some? && settings.key.value != ""
  }

  /** The registry holds an entry for `username` that has not expired (`expiration < now` is false). */
  predicate IsLive(registry: Registry, username: string, now: int) {
    username in registry && registry[username].expiration >= now
  }

  /** Every registered refresh token is one serialized token whose `exp` is the entry's expiration, as minted. */
  ghost predicate EntriesMatchTokens(registry: Registry) {
    forall name :: name in registry ==>
      |registry[name].token| == 1 && registry[name].token[0].Jws? &&
      registry[name].token[0].token.exp == registry[name].expiration
  }

  // ---------------------------------------------------------------------
  // Login
  // ---------------------------------------------------------------------

  /**
   * `Login`: the response and the new registry. Credentials are checked
   * before the key; any failure leaves the registry as it was. On success
   * the access token is "Bearer " and a token with the user's claims; a
   * live refresh entry is handed out again unchanged, otherwise a fresh one
   * replaces it; the entries of all other usernames are untouched.
   */
  function LoginStep(users: seq<User>, registry: Registry, settings: JwtSettings, model: LoginModel,
                     now: int, jti: string): (out: (Result<Session, AuthError>, Registry))
    ensures out.0 == Err(Unauthorized) <==>
      forall i :: 0 <= i < |users| ==> !HasCredentials(users[i], model.username, model.password)
    ensures out.0 == Err(KeyNotConfigured) <==>
      FindUser(users, model.username, model.password).Some? && !KeyConfigured(settings)
    ensures out.0.Ok? || out.0 == Err(Unauthorized) || out.0 == Err(KeyNotConfigured)
    ensures out.0.Err? ==> out.1 == registry
    ensures out.0.Ok? ==>
      var user := FindUser(users, model.username, model.password).value;
      && out.0.value.accessToken == Chars(BearerPrefix) + GenerateAccessToken(BuildClaims(user, jti), settings.key.value,
           settings.issuer, settings.audience, settings.accessTokenExpiryMinutes, now)
      && out.0.value.accessTokenExpiration == AddMinutes(now, settings.accessTokenExpiryMinutes)
    ensures out.0.Ok? && IsLive(registry, model.username, now) ==>
      && out.1 == registry
      && out.0.value.refreshToken == registry[model.username].token
      && out.0.value.refreshTokenExpiration == registry[model.username].expiration
    ensures out.0.Ok? && !IsLive(registry, model.username, now) ==>
      var minted := GenerateRefreshToken(settings.key.value, settings.issuer, settings.audience,
                                         settings.refreshTokenExpiryMinutes, now);
      && out.1 == registry[model.username := RefreshEntry(minted.0, minted.1)]
      && out.0.value.refreshToken == minted.0
      && out.0.value.refreshTokenExpiration == minted.1
    ensures out.0.Ok? ==>
      model.username in out.1 &&
      out.1[model.username] == RefreshEntry(out.0.value.refreshToken, out.0.value.refreshTokenExpiration)
    ensures forall name :: name != model.username ==>
      (name in out.1 <==> name in registry) && (name in registry ==> out.1[name] == registry[name])
    ensures EntriesMatchTokens(registry) ==> EntriesMatchTokens(out.1)
    ensures out.0.Err? ==>
      && (StatusCode(out.0.error) == 401 <==>
            forall i :: 0 <= i < |users| ==> !HasCredentials(users[i], model.username, model.password))
      && (StatusCode(out.0.error) == 400 <==> FindUser(users, model.username, model.password).Some?)
  {
    match FindUser(users, model.username, model.password)
    case None => (Err(Unauthorized), registry)
    case Some(user) =>
      var claims := BuildClaims(user, jti);
      if !KeyConfigured(settings) then (Err(KeyNotConfigured), registry)
      else
        var key := settings.key.value;
        var accessToken := GenerateAccessToken(claims, key, settings.issuer, settings.audience,
                                               settings.accessTokenExpiryMinutes, now);
        var entry := if IsLive(registry, user.username, now) then registry[user.username]
                     else
                       var minted := GenerateRefreshToken(key, settings.issuer, settings.audience,
                                                          settings.refreshTokenExpiryMinutes, now);
                       RefreshEntry(minted.0, minted.1);
        var session := Session(Chars(BearerPrefix) + accessToken, entry.token,
                               AddMinutes(now, settings.accessTokenExpiryMinutes), entry.expiration);
        (Ok(session), registry[user.username := entry])
  }

  // ---------------------------------------------------------------------
  // Refresh
  // ---------------------------------------------------------------------

  /**
   * `GetPrincipalFromExpiredToken`: the claims of a token signed with the
   * configured key and `alg` HS256, whatever its expiry, issuer and
   * audience. One more "Bearer " prefix is removed first. Validation
   * admits the HMAC names in exact case only, so the case-insensitive
   * check after it admits exactly "HS256". A null key fails before
   * validation, with an exception that is not a `SecurityTokenException`.
   */
  function GetPrincipalFromExpiredToken(token: Text, key: Option<string>, now: int): (r: Result<seq<Claim>, AuthError>)
    ensures r == Err(KeyMissing) <==> key.None?
    ensures r.Err? ==> r.error == KeyMissing || r.error.InvalidAccessToken?
    ensures r.Ok? ==>
      && key.Some? && key.value != ""
      && exists t :: StripBearer(token) == WriteToken(t) && t.key == SigningKey(key.value) &&
                     t.alg == HmacSha256 && r.value == t.claims
    ensures (key.Some? && key.value != "" &&
             exists t :: StripBearer(token) == WriteToken(t) && t.key == SigningKey(key.value) &&
                         t.alg == HmacSha256) ==> r.Ok?
  {
    assert EqualsIgnoreCase(HmacSha256, HmacSha256);
    if key.None? then Err(KeyMissing)
    else
      match ValidateToken(StripBearer(token), SigningKey(key.value), false, now)
      case Err(e) => Err(InvalidAccessToken(e))
      case Ok(t) =>
        if !EqualsIgnoreCase(t.alg, HmacSha256) then Err(InvalidAccessToken(InvalidAlgorithm))
        else
          HmacNameFoldsOnlyToItself(t.alg);
          Ok(t.claims)
  }

  /**
   * Round trip: an access token made with a non-empty secret yields its
   * claims under that secret at any time, also after its expiry, with or
   * without the "Bearer " prefix. Under a secret with a different key it
   * fails on its signature.
   */
  lemma {:induction false} AccessTokenRoundTrip(claims: seq<Claim>, secret: string, other: string, issuer: string,
                                                audience: string, minutes: int, issuedAt: int, now: int)
    requires secret != ""
    ensures var text := GenerateAccessToken(claims, secret, issuer, audience, minutes, issuedAt);
      && GetPrincipalFromExpiredToken(text, Some(secret), now) == Ok(claims)
      && GetPrincipalFromExpiredToken(Chars(BearerPrefix) + text, Some(secret), now) == Ok(claims)
      && (other != "" && SigningKey(other) != SigningKey(secret) ==>
            GetPrincipalFromExpiredToken(text, Some(other), now) == Err(InvalidAccessToken(InvalidSignature)))
  {
    var text := GenerateAccessToken(claims, secret, issuer, audience, minutes, issuedAt);
    StripBearerToken(text[0].token);
    assert EqualsIgnoreCase(HmacSha256, HmacSha256);
  }

  /**
   * The two `alg` checks: a key-matching token under "hs256" fails
   * validation itself, and one under "HS384" passes validation but not the
   * comparison with "HS256".
   */
  lemma AlgorithmChecks(claims: seq<Claim>, secret: string, now: int)
    requires secret != ""
    ensures GetPrincipalFromExpiredToken(WriteToken(Token(claims, "", "", now, "hs256", SigningKey(secret))), Some(secret), now)
            == Err(InvalidAccessToken(InvalidSignature))
    ensures GetPrincipalFromExpiredToken(WriteToken(Token(claims, "", "", now, "HS384", SigningKey(secret))), Some(secret), now)
            == Err(InvalidAccessToken(InvalidAlgorithm))
  {
    TrimNoSpace(WriteToken(Token(claims, "", "", now, "hs256", SigningKey(secret))));
    TrimNoSpace(WriteToken(Token(claims, "", "", now, "HS384", SigningKey(secret))));
    assert !EqualsIgnoreCase("HS384", HmacSha256) by {
      assert ToUpperAscii("HS384"[2]) != ToUpperAscii(HmacSha256[2]);
    }
  }

  /** The request is present and each of its three fields is non-null and non-empty. */
  predicate RequestComplete(request: Option<RefreshModel>) {
    && request.Some?
    && request.value.username.Some? && request.value.username.value != ""
    && request.value.accessToken.Some? && request.value.accessToken.value != []
    && request.value.refreshToken.Some? && request.value.refreshToken.value != []
  }

  /** The token text `Refresh` hands to `GetPrincipalFromExpiredToken`: one prefix already removed. */
  function PresentedAccessToken(request: Option<RefreshModel>): Text
    requires RequestComplete(request)
  {
    StripBearer(request.value.accessToken.value)
  }

  /**
   * `Refresh`: incomplete requests first, then the access token (which
   * may carry up to two "Bearer " prefixes and may have expired), then the
   * registry entry of the request's username, which must exist, equal the
   * presented refresh token and be live. On success a new access token
   * (without prefix) from the recovered claims, and the stored refresh
   * token and expiration unchanged. Reads the registry, never writes it.
   */
  function RefreshStep(registry: Registry, settings: JwtSettings, request: Option<RefreshModel>,
                       now: int): (r: Result<Session, AuthError>)
    ensures r == Err(InvalidClientRequest) <==> !RequestComplete(request)
    ensures RequestComplete(request) ==>
      var principal := GetPrincipalFromExpiredToken(PresentedAccessToken(request), settings.key, now);
      && (principal.Err? ==> r == Err(principal.error))
      && (principal.Ok? ==> var name := request.value.username.value;
            (r.Ok? <==> IsLive(registry, name, now) && registry[name].token == request.value.refreshToken.value)
            && (r.Err? ==> r == Err(InvalidRefreshToken)))
    ensures r.Ok? ==>
      var name := request.value.username.value;
      var principal := GetPrincipalFromExpiredToken(PresentedAccessToken(request), settings.key, now);
      && name in registry
      && principal.Ok?
      && r.value.accessToken == GenerateAccessToken(principal.value, settings.key.value, settings.issuer,
           settings.audience, settings.accessTokenExpiryMinutes, now)
      && r.value.accessTokenExpiration == AddMinutes(now, settings.accessTokenExpiryMinutes)
      && r.value.refreshToken == registry[name].token
      && r.value.refreshTokenExpiration == registry[name].expiration
    ensures r.Err? ==>
      && (StatusCode(r.error) == 500 <==> RequestComplete(request) && settings.key.None?)
      && (StatusCode(r.error) == 400 <==> !(RequestComplete(request) && settings.key.None?))
  {
    if !RequestComplete(request) then Err(InvalidClientRequest)
    else
      var req := request.value;
      match GetPrincipalFromExpiredToken(PresentedAccessToken(request), settings.key, now)
      case Err(e) => Err(e)
      case Ok(claims) =>
        var username := req.username.value;
        if username !in registry then Err(InvalidRefreshToken)
        else
          var saved := registry[username];
          if saved.token != req.refreshToken.value || saved.expiration < now then Err(InvalidRefreshToken)
          else
            Ok(Session(GenerateAccessToken(claims, settings.key.value, settings.issuer, settings.audience,
                                           settings.accessTokenExpiryMinutes, now),
                       saved.token, AddMinutes(now, settings.accessTokenExpiryMinutes), saved.expiration))
  }

  // ---------------------------------------------------------------------
  // Register
  // ---------------------------------------------------------------------

  /** `_fakeUsers.Any(u => u.Username == username)`. */
  predicate UsernameTaken(users: seq<User>, username: string) {
    exists i :: 0 <= i < |users| && users[i].username == username
  }

  /** No two directory users share a username. */
  ghost predicate UniqueUsernames(users: seq<User>) {
    forall i, j :: 0 <= i < j < |users| ==> users[i].username != users[j].username
  }

  /**
   * `Register`: fails when the username is taken; otherwise appends
   * exactly one user with the given credentials and the role "User".
   * Usernames stay unique.
   */
  function RegisterStep(users: seq<User>, model: RegisterModel): (out: (Result<(), AuthError>, seq<User>))
    ensures out.0.Ok? <==> forall i :: 0 <= i < |users| ==> users[i].username != model.username
    ensures out.0.Err? ==> out.0.error == UserAlreadyExists && out.1 == users
    ensures out.0.Ok? ==> out.1 == users + [User(model.username, model.password, DefaultRoles)]
    ensures UniqueUsernames(users) ==> UniqueUsernames(out.1)
    ensures out.0.Err? ==> StatusCode(out.0.error) == 400
  {
    if UsernameTaken(users, model.username) then (Err(UserAlreadyExists), users)
    else (Ok(()), users + [User(model.username, model.password, DefaultRoles)])
  }

  // ---------------------------------------------------------------------
  // Properties of sequences of transitions
  // ---------------------------------------------------------------------

  /** Looking up a user appended behind users with other usernames finds that user or nobody. */
  lemma {:induction false} FindUserAppended(users: seq<User>, u: User, password: string)
    requires forall i :: 0 <= i < |users| ==> users[i].username != u.username
    ensures FindUser(users + [u], u.username, password) == if u.password == password then Some(u) else None
  {
    if users != [] {
      assert (users + [u])[1..] == users[1..] + [u];
      FindUserAppended(users[1..], u, password);
    }
  }

  /**
   * A user who has just registered can log in with those credentials
   * (once the key is configured), and the access token carries the
   * subject, the identifier and the single role "User".
   */
  lemma RegisterThenLogin(users: seq<User>, registry: Registry, settings: JwtSettings, model: RegisterModel,
                          now: int, jti: string)
    requires RegisterStep(users, model).0.Ok?
    requires KeyConfigured(settings)
    ensures var login := LoginStep(RegisterStep(users, model).1, registry, settings,
                                   LoginModel(model.username, model.password), now, jti);
      && login.0.Ok?
      && login.0.value.accessToken == Chars(BearerPrefix) + GenerateAccessToken(
           [Claim(SubClaimType, model.username), Claim(JtiClaimType, jti), Claim(RoleClaimType, "User")],
           settings.key.value, settings.issuer, settings.audience, settings.accessTokenExpiryMinutes, now)
  {
    var u := User(model.username, model.password, DefaultRoles);
    FindUserAppended(users, u, model.password);
    assert BuildClaims(u, jti) == [Claim(SubClaimType, model.username), Claim(JtiClaimType, jti), Claim(RoleClaimType, "User")];
  }

  /**
   * The session lifecycle: the tokens a login returns, presented as they
   * were returned (the access token with its "Bearer " prefix) at any
   * later time up to the refresh token's expiration, refresh successfully,
   * also after the access token itself has expired. The new access token
   * carries the login's claims, and the refresh token and its expiration
   * are the login's.
   */
  lemma LoginThenRefresh(users: seq<User>, registry: Registry, settings: JwtSettings, model: LoginModel,
                         jti: string, loginAt: int, refreshAt: int)
    requires model.username != ""
    requires EntriesMatchTokens(registry)
    requires LoginStep(users, registry, settings, model, loginAt, jti).0.Ok?
    requires refreshAt <= LoginStep(users, registry, settings, model, loginAt, jti).0.value.refreshTokenExpiration
    ensures var login := LoginStep(users, registry, settings, model, loginAt, jti);
      var session := login.0.value;
      var user := FindUser(users, model.username, model.password).value;
      RefreshStep(login.1, settings, Some(RefreshModel(Some(model.username), Some(session.accessToken), Some(session.refreshToken))), refreshAt)
      == Ok(Session(GenerateAccessToken(BuildClaims(user, jti), settings.key.value, settings.issuer, settings.audience,
                                        settings.accessTokenExpiryMinutes, refreshAt),
                    session.refreshToken, AddMinutes(refreshAt, settings.accessTokenExpiryMinutes),
                    session.refreshTokenExpiration))
  {
    var login := LoginStep(users, registry, settings, model, loginAt, jti);
    var session := login.0.value;
    var user := FindUser(users, model.username, model.password).value;
    var claims := BuildClaims(user, jti);
    var access := GenerateAccessToken(claims, settings.key.value, settings.issuer, settings.audience,
                                      settings.accessTokenExpiryMinutes, loginAt);
    var request := Some(RefreshModel(Some(model.username), Some(session.accessToken), Some(session.refreshToken)));
    assert session.refreshToken == login.1[model.username].token;
    assert RequestComplete(request);
    StripBearerToken(access[0].token);
    assert PresentedAccessToken(request) == access;
    AccessTokenRoundTrip(claims, settings.key.value, "", settings.issuer, settings.audience,
                         settings.accessTokenExpiryMinutes, loginAt, refreshAt);
  }

  /**
   * Reuse: a second login before the refresh token from the first has
   * expired returns the same refresh token and expiration and leaves the
   * registry as the first login left it.
   */
  lemma LoginReusesLiveRefreshToken(users: seq<User>, registry: Registry, settings: JwtSettings, model: LoginModel,
                                    jti1: string, jti2: string, at1: int, at2: int)
    requires LoginStep(users, registry, settings, model, at1, jti1).0.Ok?
    requires at2 <= LoginStep(users, registry, settings, model, at1, jti1).0.value.refreshTokenExpiration
    ensures var first := LoginStep(users, registry, settings, model, at1, jti1);
      var second := LoginStep(users, first.1, settings, model, at2, jti2);
      && second.0.Ok?
      && second.0.value.refreshToken == first.0.value.refreshToken
      && second.0.value.refreshTokenExpiration == first.0.value.refreshTokenExpiration
      && second.1 == first.1
  {
    var first := LoginStep(users, registry, settings, model, at1, jti1);
    assert IsLive(first.1, model.username, at2);
  }

  /**
   * Rotation: a login after the refresh token from an earlier login has
   * expired gets a different refresh token, expiring later (for a
   * non-negative lifetime).
   */
  lemma LoginAfterExpiryRotates(users: seq<User>, registry: Registry, settings: JwtSettings, model: LoginModel,
                                jti1: string, jti2: string, at1: int, at2: int)
    requires settings.refreshTokenExpiryMinutes >= 0
    requires EntriesMatchTokens(registry)
    requires LoginStep(users, registry, settings, model, at1, jti1).0.Ok?
    requires at2 > LoginStep(users, registry, settings, model, at1, jti1).0.value.refreshTokenExpiration
    ensures var first := LoginStep(users, registry, settings, model, at1, jti1);
      var second := LoginStep(users, first.1, settings, model, at2, jti2);
      && second.0.Ok?
      && second.0.value.refreshToken != first.0.value.refreshToken
      && second.0.value.refreshTokenExpiration == AddMinutes(at2, settings.refreshTokenExpiryMinutes)
      && second.0.value.refreshTokenExpiration > first.0.value.refreshTokenExpiration
  {
    var first := LoginStep(users, registry, settings, model, at1, jti1);
    var second := LoginStep(users, first.1, settings, model, at2, jti2);
    assert !IsLive(first.1, model.username, at2);
    assert second.0.value.refreshToken[0].token.exp == AddMinutes(at2, settings.refreshTokenExpiryMinutes);
  }

  /**
   * Refresh tokens name no user: two different users who both need a new
   * refresh token and log in at the same second are handed the same token
   * text, and the registry holds it under both usernames.
   */
  lemma SameInstantRefreshTokensCoincide(users: seq<User>, registry: Registry, settings: JwtSettings,
                                         a: LoginModel, b: LoginModel, jtiA: string, jtiB: string, now: int)
    requires a.username != b.username
    requires !IsLive(registry, a.username, now) && !IsLive(registry, b.username, now)
    requires LoginStep(users, registry, settings, a, now, jtiA).0.Ok?
    requires LoginStep(users, LoginStep(users, registry, settings, a, now, jtiA).1, settings, b, now, jtiB).0.Ok?
    ensures var first := LoginStep(users, registry, settings, a, now, jtiA);
      var second := LoginStep(users, first.1, settings, b, now, jtiB);
      && second.0.value.refreshToken == first.0.value.refreshToken
      && second.1[a.username].token == second.1[b.username].token
  {
    var first := LoginStep(users, registry, settings, a, now, jtiA);
    assert !IsLive(first.1, b.username, now);
  }

  /**
   * Refresh looks the registry up by the request's username and never
   * compares it with the access token's subject: with a live entry for
   * `name`, any access token signed with the configured key, whatever
   * claims it carries, is refreshed into a new one with those claims.
   */
  lemma RefreshTrustsRequestUsername(registry: Registry, settings: JwtSettings, name: string, claims: seq<Claim>,
                                     issuedAt: int, now: int)
    requires name != "" && KeyConfigured(settings)
    requires IsLive(registry, name, now) && registry[name].token != []
    ensures var access := GenerateAccessToken(claims, settings.key.value, settings.issuer, settings.audience,
                                              settings.accessTokenExpiryMinutes, issuedAt);
      var r := RefreshStep(registry, settings, Some(RefreshModel(Some(name), Some(access), Some(registry[name].token))), now);
      && r.Ok?
      && r.value.accessToken == GenerateAccessToken(claims, settings.key.value, settings.issuer, settings.audience,
                                                    settings.accessTokenExpiryMinutes, now)
  {
    var access := GenerateAccessToken(claims, settings.key.value, settings.issuer, settings.audience,
                                      settings.accessTokenExpiryMinutes, issuedAt);
    var request := Some(RefreshModel(Some(name), Some(access), Some(registry[name].token)));
    StripBearerToken(access[0].token);
    assert PresentedAccessToken(request) == access;
    AccessTokenRoundTrip(claims, settings.key.value, "", settings.issuer, settings.audience,
                         settings.accessTokenExpiryMinutes, issuedAt, now);
    assert GetPrincipalFromExpiredToken(PresentedAccessToken(request), settings.key, now) == Ok(claims);
  }

  /**
   * The access token is checked before the refresh token: a complete
   * request whose access text, after the two "Bearer " removals, is not
   * one serialized token is answered "Invalid access token", never
   * "Invalid refresh token", whether or not the refresh token it presents
   * is the live one in the registry.
   */
  lemma RefreshChecksAccessTokenFirst(registry: Registry, settings: JwtSettings, name: string, access: Text,
                                      refreshToken: Text, now: int)
    requires name != "" && access != [] && refreshToken != [] && KeyConfigured(settings)
    requires |StripBearer(StripBearer(access))| != 1 || !StripBearer(StripBearer(access))[0].Jws?
    ensures RefreshStep(registry, settings, Some(RefreshModel(Some(name), Some(access), Some(refreshToken))), now)
            == Err(InvalidAccessToken(Malformed))
  {
  }

  // ---------------------------------------------------------------------
  // The controller
  // ---------------------------------------------------------------------

  class AuthController {
    const settings: JwtSettings
    /** `_fakeUsers`, one list per controller instance. */
    var users: seq<User>
    /** `_refreshTokens`, shared by every instance (a static field in the controller). */
    var refreshTokens: Registry

    /** The invariant the three endpoints keep. */
    ghost predicate Valid()
      reads this
    {
      UniqueUsernames(users) && EntriesMatchTokens(refreshTokens)
    }

    /** A controller over the registry as earlier requests left it, with the seeded directory. */
    constructor(settings: JwtSettings, refreshTokens: Registry)
      requires EntriesMatchTokens(refreshTokens)
      ensures Valid()
      ensures this.settings == settings && users == SeedUsers && this.refreshTokens == refreshTokens
    {
      this.settings := settings;
      this.users := SeedUsers;
      this.refreshTokens := refreshTokens;
    }

    /** `Login`; `now` is the clock and `jti` the fresh GUID. */
    method Login(model: LoginModel, now: int, jti: string) returns (r: Result<Session, AuthError>)
      requires Valid()
      modifies this
      ensures Valid()
      ensures users == old(users)
      ensures (r, refreshTokens) == LoginStep(old(users), old(refreshTokens), settings, model, now, jti)
    {
      var found := FindUser(users, model.username, model.password);
      if found.None? {
        return Err(Unauthorized);
      }
      var user := found.value;
      var claims := BuildClaims(user, jti);
      if !KeyConfigured(settings) {
        return Err(KeyNotConfigured);
      }
      var key := settings.key.value;
      var accessToken := GenerateAccessToken(claims, key, settings.issuer, settings.audience,
                                             settings.accessTokenExpiryMinutes, now);
      var info: RefreshEntry;
      if user.username !in refreshTokens || refreshTokens[user.username].expiration < now {
        var minted := GenerateRefreshToken(key, settings.issuer, settings.audience,
                                           settings.refreshTokenExpiryMinutes, now);
        refreshTokens := refreshTokens[user.username := RefreshEntry(minted.0, minted.1)];
        info := RefreshEntry(minted.0, minted.1);
      } else {
        info := refreshTokens[user.username];
      }
      r := Ok(Session(Chars(BearerPrefix) + accessToken, info.token,
                      AddMinutes(now, settings.accessTokenExpiryMinutes), info.expiration));
    }

    /** `Refresh`; it only reads the registry. */
    method Refresh(request: Option<RefreshModel>, now: int) returns (r: Result<Session, AuthError>)
      ensures r == RefreshStep(refreshTokens, settings, request, now)
    {
      if !RequestComplete(request) {
        return Err(InvalidClientRequest);
      }
      var req := request.value;
      var accessToken := req.accessToken.value;
      if StartsWithBearer(accessToken) {
        accessToken := Trim(accessToken[|BearerPrefix|..]);
      }
      var principal := GetPrincipalFromExpiredToken(accessToken, settings.key, now);
      if principal.Err? {
        return Err(principal.error);
      }
      var username := req.username.value;
      if username !in refreshTokens {
        return Err(InvalidRefreshToken);
      }
      var saved := refreshTokens[username];
      if saved.token != req.refreshToken.value || saved.expiration < now {
        return Err(InvalidRefreshToken);
      }
      var newAccessToken := GenerateAccessToken(principal.value, settings.key.value, settings.issuer,
                                                settings.audience, settings.accessTokenExpiryMinutes, now);
      r := Ok(Session(newAccessToken, saved.token, AddMinutes(now, settings.accessTokenExpiryMinutes), saved.expiration));
    }

    /** `Register`. */
    method Register(model: RegisterModel) returns (r: Result<(), AuthError>)
      requires Valid()
      modifies this
      ensures Valid()
      ensures refreshTokens == old(refreshTokens)
      ensures (r, users) == RegisterStep(old(users), model)
    {
      if UsernameTaken(users, model.username) {
        return Err(UserAlreadyExists);
      }
      users := users + [User(model.username, model.password, DefaultRoles)];
      r := Ok(());
    }
  }
}
