# Product management API: tokens, sessions and catalogue queries

A Dafny model of the core of an ASP.NET Core Web API for product
management. It covers three parts:

- **Token helpers** (`TokenHelper`): mint a signed access token carrying a
  user's claims, and a signed refresh token carrying none.
- **`AuthController`**: holds an in-memory user directory (`_fakeUsers`) and
  a process-wide refresh-token registry (`_refreshTokens`, username to
  token and expiration), and implements `Login`, `Refresh`, `Register` and
  `GetPrincipalFromExpiredToken`.
- **Catalogue list endpoints**: the bodies of
  `ProductsController.GetListProducts` and
  `CategoriesController.GetListCategories`. Each is a filter, a stable sort
  and a page slice over the repository list; products also check the
  caller's first role claim.

Modules:

| file | module | what it holds |
|---|---|---|
| `Wrappers.dfy` | `Wrappers` | `Option` (C# null) and `Result` |
| `Linq.dfy` | `Linq` | `Where`, the stable `OrderBy`/`OrderByDescending`, `Skip`, `Take`, ordinal `Contains`, and integer ceiling division in place of `Math.Ceiling` on doubles |
| `Jwt.dfy` | `Jwt` | symbolic JSON Web Tokens (RFC 7519), `Encoding.ASCII.GetBytes`, `Trim`, the "Bearer " scheme prefix (RFC 6750), and `JwtSecurityTokenHandler.ValidateToken` |
| `TokenHelper.dfy` | `TokenHelper` | the two generators |
| `Auth.dfy` | `Auth` | the controller's entities, one pure step function per endpoint, and the `AuthController` class whose methods update its `users` and `refreshTokens` fields as the step functions say |
| `Catalog.dfy` | `Catalog` | products, categories, the sort direction, key orders, and the pagination step both list endpoints share |
| `Products.dfy` | `Products` | `GetListProducts` |
| `Categories.dfy` | `Categories` | `GetListCategories` |

Modelling decisions:

- **Tokens are symbolic.** A token is a record of claims, issuer,
  audience, `exp`, header `alg` and signing key. Its compact serialization
  is one atomic symbol in the text (`Sym.Jws`), while characters around it
  (a "Bearer " prefix, white space) stay ordinary characters. A signature
  verifies exactly when the verifier holds the key that signed it.
- **External inputs are parameters.** The clock is a `now` parameter in
  whole seconds. The GUID of the `jti` claim is a `jti` parameter.
- **Key bytes are modelled.** The signing key is the ASCII encoding of the
  configured secret, with `?` for any non-ASCII character. So two secrets
  of the same length that differ only at positions where both hold a
  non-ASCII character sign alike (`Jwt.NonAsciiDifferencesCollide`).
- **A null key fails differently from an empty one in `Refresh`.**
  - A null key makes `Encoding.ASCII.GetBytes` throw before the `try` in
    `GetPrincipalFromExpiredToken`. That exception is not a
    `SecurityTokenException`, so `Refresh` does not catch it. The model
    answers `KeyMissing` (status 500).
  - An empty key fails inside the `try`, so the answer is a 400.
- **The access token is checked before the refresh token.** One might
  expect a mismatching refresh token to fail with "Invalid refresh token"
  whatever the access token. The code validates the access token first,
  so an access text that is not one token always gets "Invalid access
  token" (`Auth.RefreshChecksAccessTokenFirst`). The model follows the
  code.
- **Refresh tokens carry no identity.** Such a token is a function of key,
  issuer, audience and expiry alone. Two users who are issued refresh
  tokens in the same second get the same text
  (`Auth.SameInstantRefreshTokensCoincide`). `Refresh` then looks the
  registry up by the request's username and never compares it with the
  token's subject (`Auth.RefreshTrustsRequestUsername`). Either user can
  therefore refresh under the other's username.
- **Sorting is stable, and descending is not reversed ascending.** Both
  sorts are stable. Descending order is ascending order under the flipped
  comparison, not its reverse, so equal keys keep their original order
  both ways (`Products.DescendingIsNotReversedAscending`).
- **Name order is a parameter.** Culture-sensitive string comparison is
  replaced by a `nameLe` parameter. The ordering lemmas assume it is a
  total preorder.
- **Queries that fail model binding get their own answer.** Both list
  controllers are `[ApiController]`s, so a model-state error is answered
  400 before the action runs. For `GetListProducts` such errors are the
  `[Range]` violations, and for both endpoints a sort direction that
  names no member of the `Sort` enum (the enum model binder of ASP.NET
  Core 3.0 and later refuses undefined values). The model answers these
  with `Products.InvalidQuery` and `Categories.CategoriesInvalidQuery`
  rather than excluding them. So the categories action's "Invalid sort
  direction" branch is modelled (`Categories.ListCategoriesAction`) but
  never reached through the endpoint (`Categories.GetListCategories`).
  The `Sort` enum is not part of this model; its two members `asc` and
  `desc` are taken from how the controllers use it.

## Model

| member | source | states |
|---|---|---|
| `Linq.Where` | SE160445.ProductManagement.API/Controllers/ProductsController.cs:69 | the result is a subsequence of the input; every kept element satisfies the predicate; every element that satisfies it is kept with its full multiplicity, and no other is |
| `Linq.WhereWhere` | SE160445.ProductManagement.API/Controllers/ProductsController.cs:73-80 | two chained filters select exactly what the single conjoined filter selects |
| `Linq.OrderBy` | SE160445.ProductManagement.API/Controllers/CategoriesController.cs:41 | the result is a permutation of the input |
| `Linq.OrderByDescending` | SE160445.ProductManagement.API/Controllers/CategoriesController.cs:44 | the result is a permutation of the input |
| `Linq.OrderBySorted` | SE160445.ProductManagement.API/Controllers/CategoriesController.cs:41 | under a total preorder, every earlier element's key is at most every later one's |
| `Linq.OrderByDescendingSorted` | SE160445.ProductManagement.API/Controllers/CategoriesController.cs:44 | under a total preorder, every later element's key is at most every earlier one's |
| `Linq.OrderByStable` | SE160445.ProductManagement.API/Controllers/ProductsController.cs:95 | elements whose keys tie appear in the same relative order as in the input |
| `Linq.OrderByDescendingStable` | SE160445.ProductManagement.API/Controllers/ProductsController.cs:95 | descending sorting is stable too: tied elements keep their input order |
| `Linq.Skip` | SE160445.ProductManagement.API/Controllers/ProductsController.cs:109 | a non-positive count skips nothing; otherwise the result is the suffix after that many elements, empty past the end |
| `Linq.Take` | SE160445.ProductManagement.API/Controllers/ProductsController.cs:109 | a non-positive count gives nothing; otherwise the result is the prefix of that length, or the whole list when shorter |
| `Linq.Page` | SE160445.ProductManagement.API/Controllers/CategoriesController.cs:52 | `Skip` then `Take` is the contiguous slice from the clamped start, of at most the page size |
| `Linq.Contains` | SE160445.ProductManagement.API/Controllers/ProductsController.cs:69 | true exactly when the search text occurs at some position of the name (ordinal) |
| `Linq.CeilDiv` | SE160445.ProductManagement.API/Controllers/ProductsController.cs:108 | the least integer r with n <= r*d for a positive d, and the ceiling of the negative quotient for a negative d |
| `Jwt.AsciiBytes` | SE160445.ProductManagement.API/Authentication/TokenHelper.cs:11 | one byte per character: the code of an ASCII character, `?` for any other |
| `Jwt.AsciiBytesInjective` | SE160445.ProductManagement.API/Authentication/TokenHelper.cs:11 | distinct ASCII secrets give distinct keys |
| `Jwt.NonAsciiDifferencesCollide` | SE160445.ProductManagement.API/Authentication/TokenHelper.cs:11 | two secrets of the same length that differ only where both hold non-ASCII characters give the same key |
| `Jwt.Trim` | SE160445.ProductManagement.API/Controllers/AuthController.cs:90 | only white space is removed at either end, and the result neither starts nor ends with white space |
| `Jwt.TrimIdempotent` | SE160445.ProductManagement.API/Controllers/AuthController.cs:136 | trimming again changes nothing |
| `Jwt.StripBearer` | SE160445.ProductManagement.API/Controllers/AuthController.cs:88-91 | text without the case-insensitive "Bearer " prefix is unchanged; text with it becomes the rest after the prefix with only white space removed at either end, and what is left neither starts nor ends with white space |
| `Jwt.StripBearerToken` | SE160445.ProductManagement.API/Controllers/AuthController.cs:134-137 | a serialized token with the prefix comes back as exactly the token, and a bare one is left alone |
| `Jwt.StripBearerTwice` | SE160445.ProductManagement.API/Controllers/AuthController.cs:88-91 | one removal takes off one prefix: a token behind two prefixes needs both removals, as `Refresh` and `GetPrincipalFromExpiredToken` each do one |
| `Jwt.ValidateToken` | SE160445.ProductManagement.API/Controllers/AuthController.cs:141-151 | a pass means the text is one token signed with the given non-empty key under an HMAC `alg` named in exact case, and with lifetime validation on that it has not expired; the text is malformed exactly when it is not one serialized token; the signature fails exactly for a token under another key or a non-HMAC `alg` |
| `Jwt.HmacNameFoldsOnlyToItself` | SE160445.ProductManagement.API/Controllers/AuthController.cs:151-153 | of the names validation admits, only "HS256" equals "HS256" ignoring case |
| `Jwt.ValidateWrittenToken` | SE160445.ProductManagement.API/Controllers/AuthController.cs:151 | a written token validates under its own key at any time with lifetime validation off, and fails on its signature under any other non-empty key |
| `TokenHelper.SigningKey` | SE160445.ProductManagement.API/Authentication/TokenHelper.cs:11 | one key byte per secret character |
| `TokenHelper.GenerateAccessToken` | SE160445.ProductManagement.API/Authentication/TokenHelper.cs:9-22 | one serialized token with the given claims in order, the issuer, the audience, `exp` = now + minutes, `alg` HS256 and the secret's key |
| `TokenHelper.GenerateRefreshToken` | SE160445.ProductManagement.API/Authentication/TokenHelper.cs:24-38 | a serialized token with no claims whose `exp` is the returned expiration, now + minutes; issuer, audience, HS256 and the secret's key |
| `TokenHelper.AccessTokenValidates` | SE160445.ProductManagement.API/Authentication/TokenHelper.cs:9-22 | an access token validates under its non-empty secret at any time with lifetime validation off and yields its claims; with lifetime validation on it is rejected after expiry; another key fails its signature |
| `Auth.StatusCode` | SE160445.ProductManagement.API/Controllers/AuthController.cs:42-57 | 401 exactly for unknown credentials, 500 exactly for the uncaught null key, 400 for every other failure; the step functions below state their failures' codes through it |
| `Auth.FindUser` | SE160445.ProductManagement.API/Controllers/AuthController.cs:40 | nothing exactly when no user has both the username and the password; otherwise the first user who has them |
| `Auth.RoleClaims` | SE160445.ProductManagement.API/Controllers/AuthController.cs:53 | one role claim per role, in the roles' order |
| `Auth.BuildClaims` | SE160445.ProductManagement.API/Controllers/AuthController.cs:47-53 | `sub` = username, then `jti`, then one role claim per role in list order |
| `Auth.LoginStep` | SE160445.ProductManagement.API/Controllers/AuthController.cs:38-77 | Unauthorized exactly when no user matches, before the key check; a missing key gives BadRequest; a failure is 401 exactly when no user matches and 400 exactly when one does; any failure leaves the registry unchanged; success returns "Bearer " + the access token; a live entry (also one expiring exactly now) is returned unchanged, otherwise a freshly minted one replaces it; other usernames' entries are untouched; the registry holds the returned pair |
| `Auth.GetPrincipalFromExpiredToken` | SE160445.ProductManagement.API/Controllers/AuthController.cs:128-165 | a null key is the uncaught failure; success means that, after one more prefix removal, the text is a token signed with the configured key with `alg` exactly "HS256", and the claims are its claims; conversely, with a non-null, non-empty key, every such token succeeds; every other failure is an invalid access token |
| `Auth.AccessTokenRoundTrip` | SE160445.ProductManagement.API/Controllers/AuthController.cs:141-158 | an access token yields its claims under its own non-empty secret at any time, also after expiry and with a "Bearer " prefix; under a secret with a different key it fails on its signature |
| `Auth.AlgorithmChecks` | SE160445.ProductManagement.API/Controllers/AuthController.cs:151-156 | a key-matching token under "hs256" fails validation itself; one under "HS384" passes validation and fails the HS256 comparison |
| `Auth.RefreshStep` | SE160445.ProductManagement.API/Controllers/AuthController.cs:80-123 | "Invalid client request" exactly for a null body or a null or empty field; then the access token's failure, if any; then success exactly when the entry for the request's username exists, equals the presented refresh token and is live, otherwise "Invalid refresh token"; success returns a new unprefixed access token from the recovered claims with the stored refresh token and expiry; a failure is 500 exactly for a complete request under a null key, 400 otherwise |
| `Auth.RegisterStep` | SE160445.ProductManagement.API/Controllers/AuthController.cs:169-185 | fails exactly when the username is taken, leaving the directory; otherwise appends exactly one user with role "User"; unique usernames stay unique; the failure is a 400 |
| `Auth.RegisterThenLogin` | SE160445.ProductManagement.API/Controllers/AuthController.cs:176-183 | a freshly registered user can log in and gets claims `sub`, `jti` and role "User" |
| `Auth.LoginThenRefresh` | SE160445.ProductManagement.API/Controllers/AuthController.cs:70-122 | the tokens a login returns, presented as returned, refresh successfully at any time up to the refresh expiry, also after the access token expired, with the login's claims, refresh token and expiry |
| `Auth.LoginReusesLiveRefreshToken` | SE160445.ProductManagement.API/Controllers/AuthController.cs:63 | a second login before the refresh expiry gets the same refresh token and expiry and leaves the registry as it was |
| `Auth.LoginAfterExpiryRotates` | SE160445.ProductManagement.API/Controllers/AuthController.cs:63-67 | a login after the refresh expiry gets a different token that expires later |
| `Auth.SameInstantRefreshTokensCoincide` | SE160445.ProductManagement.API/Authentication/TokenHelper.cs:29-37 | two users issued refresh tokens in the same second get the same token |
| `Auth.RefreshTrustsRequestUsername` | SE160445.ProductManagement.API/Controllers/AuthController.cs:103-114 | with a live entry for a username, an access token with any claims refreshes under that username into a token with those claims |
| `Auth.RefreshChecksAccessTokenFirst` | SE160445.ProductManagement.API/Controllers/AuthController.cs:93-101 | a complete request whose access text, after both prefix removals, is not one token gets "Invalid access token", never "Invalid refresh token", whatever its refresh token |
| `Auth.AuthController.constructor` | SE160445.ProductManagement.API/Controllers/AuthController.cs:23-35 | the directory is the two seeded users, the registry is the one shared by earlier requests, and the invariant holds |
| `Auth.AuthController.Login` | SE160445.ProductManagement.API/Controllers/AuthController.cs:38-77 | the answer and the new registry are those of `LoginStep`; the directory is unchanged; the invariant (unique usernames, entries matching their tokens' expiry) is kept |
| `Auth.AuthController.Refresh` | SE160445.ProductManagement.API/Controllers/AuthController.cs:80-123 | the answer is that of `RefreshStep`, and nothing changes |
| `Auth.AuthController.Register` | SE160445.ProductManagement.API/Controllers/AuthController.cs:169-185 | the answer and the new directory are those of `RegisterStep`; the registry is unchanged; the invariant is kept |
| `Catalog.NumericOrdersArePreorders` | SE160445.ProductManagement.API/Controllers/ProductsController.cs:95-99 | the stock and price orders are total and transitive |
| `Catalog.Paginate` | SE160445.ProductManagement.API/Controllers/ProductsController.cs:107-109 | the count is the list's length; the page count is the ceiling of count / size; the data is the slice from the clamped start of at most the page size; a page past the last is empty |
| `Catalog.PageElementsInList` | SE160445.ProductManagement.API/Controllers/CategoriesController.cs:52 | every element of a page is an element of the list |
| `Catalog.FirstPageFromAnyLowPage` | SE160445.ProductManagement.API/Controllers/CategoriesController.cs:52 | every page number up to 1 gives the first page |
| `Catalog.ElementOnItsPage` | SE160445.ProductManagement.API/Controllers/ProductsController.cs:109 | the element at index i is at position i mod size of page i / size + 1 |
| `Products.ApplySearch` | SE160445.ProductManagement.API/Controllers/ProductsController.cs:67-70 | the conditional name filter is the filter by the search condition |
| `Products.ApplyStock` | SE160445.ProductManagement.API/Controllers/ProductsController.cs:73-80 | the two conditional stock filters are the filter by the stock range |
| `Products.ApplyPrice` | SE160445.ProductManagement.API/Controllers/ProductsController.cs:83-90 | the two conditional price filters are the filter by the price range |
| `Products.FilterProducts` | SE160445.ProductManagement.API/Controllers/ProductsController.cs:66-90 | the chain of five filters is the single filter by all conditions, so its result is a subsequence of the repository in which every product passes and none that passes is dropped |
| `Products.SortProducts` | SE160445.ProductManagement.API/Controllers/ProductsController.cs:92-104 | the sort is a permutation |
| `Products.SortProductsOrdered` | SE160445.ProductManagement.API/Controllers/ProductsController.cs:93-104 | the key is stock if a stock bound is given, else price if a price bound is given, else name; ascending for `asc`, descending for every other direction |
| `Products.SortProductsStable` | SE160445.ProductManagement.API/Controllers/ProductsController.cs:95-103 | products whose selected keys tie keep their filtered order, in both directions |
| `Products.DescendingIsNotReversedAscending` | SE160445.ProductManagement.API/Controllers/ProductsController.cs:95 | two products with equal stock come out in input order both ascending and descending |
| `Products.FirstRoleClaim` | SE160445.ProductManagement.API/Controllers/ProductsController.cs:116 | nothing exactly when no claim is a role claim; otherwise the first role claim |
| `Products.AdminAccessOfLoginClaims` | SE160445.ProductManagement.API/Controllers/ProductsController.cs:116-129 | for a login's claims, access is granted exactly when the user's first role is "Admin", so roles `["User", "Admin"]` are refused |
| `Products.PageOfMatches` | SE160445.ProductManagement.API/Controllers/ProductsController.cs:106-110 | every product on the page is a repository product that passes every filter |
| `Products.GetListProducts` | SE160445.ProductManagement.API/Controllers/ProductsController.cs:38-129 | a query that fails binding (a range violation or an undefined sort direction), then an empty stock range, then an empty price range, each exactly when it holds; then 403 exactly when the first role claim is not "Admin"; success exactly when none of these holds, and then the page of the sorted, filtered list with the filtered count, at most page-size products, each a repository product passing every filter |
| `Categories.FilterCategories` | SE160445.ProductManagement.API/Controllers/CategoriesController.cs:33-36 | the categories whose name contains a non-empty search, or all of them, in repository order |
| `Categories.SortCategories` | SE160445.ProductManagement.API/Controllers/CategoriesController.cs:38-48 | nothing exactly for a direction that names no member; otherwise a permutation |
| `Categories.SortCategoriesOrdered` | SE160445.ProductManagement.API/Controllers/CategoriesController.cs:40-45 | `asc` orders names ascending and `desc` descending |
| `Categories.SortCategoriesStable` | SE160445.ProductManagement.API/Controllers/CategoriesController.cs:41-44 | categories with tied names keep their filtered order |
| `Categories.PageOfMatches` | SE160445.ProductManagement.API/Controllers/CategoriesController.cs:50-52 | every category on the page is a repository category that passes the search |
| `Categories.ListCategoriesAction` | SE160445.ProductManagement.API/Controllers/CategoriesController.cs:27-56 | "Invalid sort direction" exactly for an undefined direction; otherwise the page of the filtered, sorted list, with the filtered count, each entry a repository category passing the search |
| `Categories.GetListCategories` | SE160445.ProductManagement.API/Controllers/CategoriesController.cs:13-27 | an undefined direction fails binding, exactly then; "Invalid sort direction" is never answered; every bound request gets the action's page |

## Left out

- HMAC-SHA256, base64url and JSON are not modelled: a signature is the key
  itself, and a serialized token is one symbol.
- The token library's claim-type mapping is left out. Validation turns
  `sub` into a name-identifier claim, the token's `exp`, `iss` and `aud`
  become claims too, and a refreshed token carries them.
- `Auth.GetPrincipalFromExpiredToken`: returns exactly the claims the
  token was made with, so it is stronger than the library on this point
  (see the previous item).
- Key-size checks are left out. The library refuses to sign with an HS256
  key shorter than 256 bits, an exception that Login does not catch.
- Issuer and audience are not checked, as in the source.
- The `[Authorize]` attributes on the controllers are the framework's and
  are not modelled.
- `ProductsController` carries `[Authorize(Roles = "Admin")]`, so the
  framework refuses callers holding no "Admin" role before the body runs.
  The body's own check on the first role claim is modelled.
- `Products.GetListProducts`: authorization runs before model binding, so
  a caller holding no "Admin" role gets 403 even for a query that fails
  binding or names an empty range. The model's answers other than
  `Forbidden` assume a caller that holds the "Admin" role.
- `Jwt.IsHmacAlgorithm`: the library's table of algorithms a symmetric
  key verifies under is not part of this model. It is taken to be the
  three JWA HMAC names and their XML Signature URIs, in exact case.
- Concurrency is left out. Concurrent requests share the static registry,
  and each endpoint is modelled as one atomic step.
- `AuthController`'s lifetime is simplified. ASP.NET creates one
  controller per request, so a user added by `Register` is lost after
  that request. The class models one instance, and `RegisterThenLogin`
  speaks of that instance's directory.
- Time is whole seconds from one clock reading per request. The source
  reads `DateTime.Now` several times within one request. The `DateTime`
  range and its kind (local time) are not modelled.
- `LoginModel`, `RegisterModel` and `RefreshModel` are not part of this
  model. Their fields are taken from how the controller uses them.
- If the request classes declare non-nullable strings, the framework
  itself answers 400 to a null `Refresh` field, before the body's
  "Invalid client request" check. The model takes the body's check.
- C# null strings in the Login and Register bodies are not modelled. A
  null body there is refused by the framework before the action runs.
- `Jwt.EqualsIgnoreCase`, `Jwt.StartsWithBearer`: case folding covers
  ASCII letters only. `OrdinalIgnoreCase` and `InvariantCultureIgnoreCase`
  also fold other letters; the texts compared are ASCII in practice.
- Characters are Unicode scalar values. A character outside the Basic
  Multilingual Plane is two UTF-16 units in C#; how ASCII encoding and
  `Trim` treat such pairs is not modelled.
- Culture-sensitive ordering of names becomes the `nameLe` parameter.
- `Catalog.Paginate`: the page start `(page - 1) * pageSize` is computed
  on mathematical integers. In C# it is 32-bit and unchecked: page
  429496731 with page size 10 wraps to start 4 and returns data instead
  of an empty page. This wrap is not modelled.
- `Catalog.Paginate`, `Categories.ListCategoriesAction`,
  `Categories.GetListCategories`: require a non-zero
  page size. `GetListCategories` does not range-check its page size, and
  with size 0 the page count comes from casting an infinite or NaN
  quotient to `int`, whose value depends on the runtime. The data is then
  empty.
- `Linq.CeilDiv` replaces the double division and `Math.Ceiling`. For
  counts and sizes within 32-bit range the double computation gives the
  same integer.
- `decimal` prices are exact reals; `decimal` range and scale are not
  modelled.
- AutoMapper's mapping to response DTOs is the identity here.
- These are outside the core and not modelled: Entity Framework, the
  repositories (the list is `ToListAsync`, so every query runs in
  memory), the CRUD endpoints, `Program.cs` and configuration loading.
- The `catch (Exception)` blocks that turn other faults into status 500
  are not modelled: no modelled operation faults.
