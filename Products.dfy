/**
 * `ProductsController.GetListProducts`: range checks on the query, the
 * bound checks, the filter chain, the choice of sort key, pagination, and
 * the check on the caller's first role claim.
 */
module Products {
  import opened Wrappers
  import opened Linq
  import opened Jwt
  import opened Catalog
  import Auth

  /** The query string of the endpoint. */
  datatype ProductQuery = ProductQuery(
    page: int, pageSize: int, sortDirection: Sort, search: Option<string>,
    minStock: Option<int>, maxStock: Option<int>, minPrice: Option<real>, maxPrice: Option<real>)

  /** The endpoint's answers. */
  datatype ProductsResponse =
    | ProductsOk(result: PageOf<Product>)
    | ProductsBadRequest(message: string)
    | InvalidQuery      // the automatic 400 for a model-state error
    | Forbidden         // 403: the first role claim is not "Admin"

  const MinStockMessage: string := "Min stock must be less than max stock"
  const MinPriceMessage: string := "Min price must be less than max price"

  /** The `[Range]` attributes: page and page size at least 1, every given bound at least 0. */
  predicate QueryInRange(q: ProductQuery) {
    && q.page >= 1 && q.pageSize >= 1
    && (q.minStock.Some? ==> q.minStock.value >= 0) && (q.maxStock.Some? ==> q.maxStock.value >= 0)
    && (q.minPrice.Some? ==> q.minPrice.value >= 0.0) && (q.maxPrice.Some? ==> q.maxPrice.value >= 0.0)
  }

  /**
   * The query binds without a model-state error: every `[Range]` holds
   * and the sort direction names a member of the enum.
   */
  predicate QueryBinds(q: ProductQuery) {
    QueryInRange(q) && !q.sortDirection.Undefined?
  }

  /** Both stock bounds are given and the minimum is not below the maximum. */
  predicate StockRangeEmpty(q: ProductQuery) {
    q.minStock.Some? && q.maxStock.Some? && q.minStock.value >= q.maxStock.value
  }

  /** Both price bounds are given and the minimum is not below the maximum. */
  predicate PriceRangeEmpty(q: ProductQuery) {
    q.minPrice.Some? && q.maxPrice.Some? && q.minPrice.value >= q.maxPrice.value
  }

  // ---------------------------------------------------------------------
  // Filters
  // ---------------------------------------------------------------------

  predicate SearchOk(q: ProductQuery, p: Product) {
    MatchesSearch(q.search, p.productName)
  }

  predicate StockOk(q: ProductQuery, p: Product) {
    (q.minStock.Some? ==> p.unitsOfStock >= q.minStock.value) &&
    (q.maxStock.Some? ==> p.unitsOfStock <= q.maxStock.value)
  }

  predicate PriceOk(q: ProductQuery, p: Product) {
    (q.minPrice.Some? ==> p.unitPrice >= q.minPrice.value) &&
    (q.maxPrice.Some? ==> p.unitPrice <= q.maxPrice.value)
  }

  /** A product passes every filter the query gives. */
  predicate Matches(q: ProductQuery, p: Product) {
    SearchOk(q, p) && StockOk(q, p) && PriceOk(q, p)
  }

  function QueryFilter(q: ProductQuery): Product -> bool {
    p => Matches(q, p)
  }

  /** `if (!string.IsNullOrEmpty(search)) products = products.Where(p => p.ProductName.Contains(search))`. */
  function ApplySearch(s: seq<Product>, q: ProductQuery): (r: seq<Product>)
    ensures r == Where(s, p => SearchOk(q, p))
  {
    var bySearch := (p: Product) => HasSearch(q.search) && Contains(p.productName, q.search.value);
    if HasSearch(q.search) then
      WhereExtensional(s, bySearch, p => SearchOk(q, p));
      Where(s, bySearch)
    else
      WhereAll(s, p => SearchOk(q, p));
      s
  }

  /** The two conditional stock filters. */
  function ApplyStock(s: seq<Product>, q: ProductQuery): (r: seq<Product>)
    ensures r == Where(s, p => StockOk(q, p))
  {
    var byMin := (p: Product) => q.minStock.Some? && p.unitsOfStock >= q.minStock.value;
    var byMax := (p: Product) => q.maxStock.Some? && p.unitsOfStock <= q.maxStock.value;
    var s1 := if q.minStock.Some? then Where(s, byMin) else s;
    var s2 := if q.maxStock.Some? then Where(s1, byMax) else s1;
    var f1 := (p: Product) => q.minStock.Some? ==> p.unitsOfStock >= q.minStock.value;
    WhereAll(s, _ => true);
    WhereIf(s, _ => true, q.minStock.Some?, byMin, f1);
    WhereIf(s, f1, q.maxStock.Some?, byMax, p => StockOk(q, p));
    s2
  }

  /** The two conditional price filters. */
  function ApplyPrice(s: seq<Product>, q: ProductQuery): (r: seq<Product>)
    ensures r == Where(s, p => PriceOk(q, p))
  {
    var byMin := (p: Product) => q.minPrice.Some? && p.unitPrice >= q.minPrice.value;
    var byMax := (p: Product) => q.maxPrice.Some? && p.unitPrice <= q.maxPrice.value;
    var s1 := if q.minPrice.Some? then Where(s, byMin) else s;
    var s2 := if q.maxPrice.Some? then Where(s1, byMax) else s1;
    var f1 := (p: Product) => q.minPrice.Some? ==> p.unitPrice >= q.minPrice.value;
    WhereAll(s, _ => true);
    WhereIf(s, _ => true, q.minPrice.Some?, byMin, f1);
    WhereIf(s, f1, q.maxPrice.Some?, byMax, p => PriceOk(q, p));
    s2
  }

  /**
   * The five conditional `Where` calls, in the controller's order, are
   * the single filter by all of the query's conditions: the result is a
   * subsequence of the repository list, every product in it passes every
   * filter, and no product that passes them all is dropped.
   */
  function FilterProducts(products: seq<Product>, q: ProductQuery): (r: seq<Product>)
    ensures r == Where(products, QueryFilter(q))
  {
    var searchAndStock := (p: Product) => SearchOk(q, p) && StockOk(q, p);
    WhereWhere(products, p => SearchOk(q, p), p => StockOk(q, p), searchAndStock);
    WhereWhere(products, searchAndStock, p => PriceOk(q, p), QueryFilter(q));
    ApplyPrice(ApplyStock(ApplySearch(products, q), q), q)
  }

  // ---------------------------------------------------------------------
  // Sorting
  // ---------------------------------------------------------------------

  predicate StockBounded(q: ProductQuery) { q.minStock.Some? || q.maxStock.Some? }

  predicate PriceBounded(q: ProductQuery) { q.minPrice.Some? || q.maxPrice.Some? }

  /**
   * The sort: by stock when a stock bound is given, else by price when a
   * price bound is given, else by name under `nameLe`; ascending for `asc`
   * and descending for every other direction. It is a permutation.
   */
  function SortProducts(s: seq<Product>, q: ProductQuery, nameLe: (string, string) -> bool): (r: seq<Product>)
    ensures multiset(r) == multiset(s)
  {
    if StockBounded(q) then
      if q.sortDirection == Asc then OrderBy(s, StockOf, IntLe) else OrderByDescending(s, StockOf, IntLe)
    else if PriceBounded(q) then
      if q.sortDirection == Asc then OrderBy(s, PriceOf, RealLe) else OrderByDescending(s, PriceOf, RealLe)
    else
      if q.sortDirection == Asc then OrderBy(s, ProductNameOf, nameLe) else OrderByDescending(s, ProductNameOf, nameLe)
  }

  /** `a` may come before `b` under the query's sort key and direction. */
  predicate InSortOrder(q: ProductQuery, nameLe: (string, string) -> bool, a: Product, b: Product) {
    if StockBounded(q) then
      (if q.sortDirection == Asc then a.unitsOfStock <= b.unitsOfStock else a.unitsOfStock >= b.unitsOfStock)
    else if PriceBounded(q) then
      (if q.sortDirection == Asc then a.unitPrice <= b.unitPrice else a.unitPrice >= b.unitPrice)
    else
      (if q.sortDirection == Asc then nameLe(a.productName, b.productName) else nameLe(b.productName, a.productName))
  }

  /** Whether the sort is by name, the only key whose order is a parameter. */
  predicate SortsByName(q: ProductQuery) { !StockBounded(q) && !PriceBounded(q) }

  /**
   * The sorted list is ordered by the selected key in the selected
   * direction; only a sort by name needs its order to be a total preorder.
   */
  lemma SortProductsOrdered(s: seq<Product>, q: ProductQuery, nameLe: (string, string) -> bool)
    requires SortsByName(q) ==> Total(nameLe) && Transitive(nameLe)
    ensures var r := SortProducts(s, q, nameLe);
      forall i, j :: 0 <= i < j < |r| ==> InSortOrder(q, nameLe, r[i], r[j])
  {
    NumericOrdersArePreorders();
    if StockBounded(q) {
      if q.sortDirection == Asc { OrderBySorted(s, StockOf, IntLe); } else { OrderByDescendingSorted(s, StockOf, IntLe); }
    } else if PriceBounded(q) {
      if q.sortDirection == Asc { OrderBySorted(s, PriceOf, RealLe); } else { OrderByDescendingSorted(s, PriceOf, RealLe); }
    } else {
      if q.sortDirection == Asc {
        OrderBySorted(s, ProductNameOf, nameLe);
      } else {
        OrderByDescendingSorted(s, ProductNameOf, nameLe);
      }
    }
  }

  /** The products whose selected key ties with that of `k`. */
  function TiedByQueryKey(q: ProductQuery, nameLe: (string, string) -> bool, k: Product): Product -> bool {
    if StockBounded(q) then TiedWith(StockOf, IntLe, k.unitsOfStock)
    else if PriceBounded(q) then TiedWith(PriceOf, RealLe, k.unitPrice)
    else TiedWith(ProductNameOf, nameLe, k.productName)
  }

  /**
   * Stability, in both directions: products whose keys tie keep the
   * order they had in the filtered list.
   */
  lemma SortProductsStable(s: seq<Product>, q: ProductQuery, nameLe: (string, string) -> bool, k: Product)
    requires SortsByName(q) ==> Transitive(nameLe)
    ensures Where(SortProducts(s, q, nameLe), TiedByQueryKey(q, nameLe, k)) == Where(s, TiedByQueryKey(q, nameLe, k))
  {
    NumericOrdersArePreorders();
    if StockBounded(q) {
      if q.sortDirection == Asc {
        OrderByStable(s, StockOf, IntLe, k.unitsOfStock);
      } else {
        OrderByDescendingStable(s, StockOf, IntLe, k.unitsOfStock);
      }
    } else if PriceBounded(q) {
      if q.sortDirection == Asc {
        OrderByStable(s, PriceOf, RealLe, k.unitPrice);
      } else {
        OrderByDescendingStable(s, PriceOf, RealLe, k.unitPrice);
      }
    } else {
      if q.sortDirection == Asc {
        OrderByStable(s, ProductNameOf, nameLe, k.productName);
      } else {
        OrderByDescendingStable(s, ProductNameOf, nameLe, k.productName);
      }
    }
  }

  /**
   * A descending sort is not the reverse of the ascending one: two
   * products with equal stock come out in their original order both ways.
   */
  lemma DescendingIsNotReversedAscending(nameLe: (string, string) -> bool)
    ensures var a := Product(1, "a", 1, 5, 1.0);
      var b := Product(2, "b", 1, 5, 2.0);
      var asc := ProductQuery(1, 10, Asc, None, Some(0), None, None, None);
      var desc := asc.(sortDirection := Desc);
      && SortProducts([a, b], asc, nameLe) == [a, b]
      && SortProducts([a, b], desc, nameLe) == [a, b]
  {
    var a := Product(1, "a", 1, 5, 1.0);
    var b := Product(2, "b", 1, 5, 2.0);
    assert Insert(b, [], StockOf, IntLe) == [b];
    assert Insert(a, [b], StockOf, IntLe) == [a, b];
    assert OrderBy([a, b], StockOf, IntLe) == Insert(a, OrderBy([b], StockOf, IntLe), StockOf, IntLe);
    assert Flip(IntLe)(a.unitsOfStock, b.unitsOfStock);
    assert Insert(b, [], StockOf, Flip(IntLe)) == [b];
    assert Insert(a, [b], StockOf, Flip(IntLe)) == [a, b];
    assert OrderBy([a, b], StockOf, Flip(IntLe)) == Insert(a, OrderBy([b], StockOf, Flip(IntLe)), StockOf, Flip(IntLe));
  }

  // ---------------------------------------------------------------------
  // The role check
  // ---------------------------------------------------------------------

  predicate IsFirstRoleClaim(claims: seq<Claim>, i: int) {
    0 <= i < |claims| && claims[i].claimType == RoleClaimType &&
    forall j :: 0 <= j < i ==> claims[j].claimType != RoleClaimType
  }

  /** `claims.FirstOrDefault(c => c.Type == ClaimTypes.Role)`. */
  function FirstRoleClaim(claims: seq<Claim>): (r: Option<Claim>)
    ensures r.None? <==> forall i :: 0 <= i < |claims| ==> claims[i].claimType != RoleClaimType
    ensures r.Some? ==> exists i :: IsFirstRoleClaim(claims, i) && claims[i] == r.value
  {
    if claims == [] then None
    else if claims[0].claimType == RoleClaimType then
      assert IsFirstRoleClaim(claims, 0);
      Some(claims[0])
    else
      var r := FirstRoleClaim(claims[1..]);
      assert r.Some? ==> exists i :: IsFirstRoleClaim(claims, i) && claims[i] == r.value by {
        if r.Some? {
          var i :| IsFirstRoleClaim(claims[1..], i) && claims[1..][i] == r.value;
          assert IsFirstRoleClaim(claims, i + 1);
        }
      }
      assert r.None? ==> forall i :: 0 <= i < |claims| ==> claims[i].claimType != RoleClaimType by {
        if r.None? {
          forall i | 0 <= i < |claims|
            ensures claims[i].claimType != RoleClaimType
          {
            if i > 0 {
              assert claims[i] == claims[1..][i - 1];
            }
          }
        }
      }
      r
  }

  /** The first role claim exists and its value is "Admin". */
  predicate HasAdminAccess(claims: seq<Claim>) {
    var first := FirstRoleClaim(claims);
    first.Some? && first.value.value == "Admin"
  }

  /**
   * For the claims a login puts in the access token, the check passes
   * exactly when the user's first role is "Admin": a user with roles
   * `["User", "Admin"]` is refused.
   */
  lemma AdminAccessOfLoginClaims(user: Auth.User, jti: string)
    ensures HasAdminAccess(Auth.BuildClaims(user, jti)) <==> |user.roles| > 0 && user.roles[0] == "Admin"
  {
    var claims := Auth.BuildClaims(user, jti);
    assert SubClaimType != RoleClaimType && JtiClaimType != RoleClaimType;
    if |user.roles| > 0 {
      var first := FirstRoleClaim(claims);
      assert claims[2].claimType == RoleClaimType;
      var i :| IsFirstRoleClaim(claims, i) && claims[i] == first.value;
      assert i == 2;
    } else {
      assert forall i :: 0 <= i < |claims| ==> claims[i].claimType != RoleClaimType;
    }
  }

  /** Every product on a page of the sorted, filtered list is a repository product that passes the filters. */
  lemma PageOfMatches(products: seq<Product>, q: ProductQuery, nameLe: (string, string) -> bool)
    requires q.pageSize != 0
    ensures var data := Paginate(SortProducts(Where(products, QueryFilter(q)), q, nameLe), q.page, q.pageSize).data;
      forall i :: 0 <= i < |data| ==> data[i] in products && Matches(q, data[i])
  {
    var filtered := Where(products, QueryFilter(q));
    var sorted := SortProducts(filtered, q, nameLe);
    var data := Paginate(sorted, q.page, q.pageSize).data;
    PageElementsInList(sorted, q.page, q.pageSize);
    forall i | 0 <= i < |data|
      ensures data[i] in products && Matches(q, data[i])
    {
      var x := data[i];
      assert multiset(sorted)[x] > 0;
      assert multiset(filtered)[x] > 0;
      assert x in filtered;
      assert multiset(products)[x] == multiset(filtered)[x];
    }
  }

  // ---------------------------------------------------------------------
  // The endpoint
  // ---------------------------------------------------------------------

  /**
   * `GetListProducts` for a repository list, a query, the caller's
   * claims and the name order. A query that does not bind is refused
   * first, then an empty stock range, then an empty price range; the role
   * check comes last, after the page is built. A successful answer is the
   * page of the filtered, sorted list, and it is given exactly when no
   * check refuses.
   */
  function GetListProducts(products: seq<Product>, q: ProductQuery, claims: seq<Claim>,
                           nameLe: (string, string) -> bool): (r: ProductsResponse)
    ensures r == InvalidQuery <==> !QueryBinds(q)
    ensures r == ProductsBadRequest(MinStockMessage) <==> QueryBinds(q) && StockRangeEmpty(q)
    ensures r == ProductsBadRequest(MinPriceMessage) <==> QueryBinds(q) && !StockRangeEmpty(q) && PriceRangeEmpty(q)
    ensures r == Forbidden <==>
      QueryBinds(q) && !StockRangeEmpty(q) && !PriceRangeEmpty(q) && !HasAdminAccess(claims)
    ensures r.ProductsOk? <==>
      QueryBinds(q) && !StockRangeEmpty(q) && !PriceRangeEmpty(q) && HasAdminAccess(claims)
    ensures r.ProductsOk? ==>
      && r.result == Paginate(SortProducts(Where(products, QueryFilter(q)), q, nameLe), q.page, q.pageSize)
      && r.result.totalCount == |Where(products, QueryFilter(q))|
      && |r.result.data| <= q.pageSize
      && forall i :: 0 <= i < |r.result.data| ==> r.result.data[i] in products && Matches(q, r.result.data[i])
  {
    if !QueryBinds(q) then InvalidQuery
    else if StockRangeEmpty(q) then ProductsBadRequest(MinStockMessage)
    else if PriceRangeEmpty(q) then ProductsBadRequest(MinPriceMessage)
    else
      var filtered := FilterProducts(products, q);
      var sorted := SortProducts(filtered, q, nameLe);
      var result := Paginate(sorted, q.page, q.pageSize);
      PageOfMatches(products, q, nameLe);
      if HasAdminAccess(claims) then ProductsOk(result) else Forbidden
  }
}
