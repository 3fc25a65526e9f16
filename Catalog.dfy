/**
 * The catalogue entities and what both list endpoints share: the sort
 * direction, the search filter, the sort keys and their orders, and the
 * pagination step that follows the sort.
 */
module Catalog {
  import opened Wrappers
  import opened Linq

  /** A product row; `decimal` prices are exact reals. */
  datatype Product = Product(productId: int, productName: string, categoryId: int, unitsOfStock: int, unitPrice: real)

  /** A category row. */
  datatype Category = Category(categoryId: int, categoryName: string)

  /**
   * The sort direction of a query: `asc`, `desc`, or an integer that
   * names no member of the enum. The enum model binder records a
   * model-state error for such an integer, so on an `[ApiController]`
   * the request is answered 400 before the action runs; the action bodies
   * are still modelled for it.
   */
  datatype Sort = Asc | Desc | Undefined(code: int)

  /** `!string.IsNullOrEmpty(search)`. */
  predicate HasSearch(search: Option<string>) {
    search.Some? && search.value != ""
  }

  /** A name passes the search: there is no search text, or the name contains it (ordinal, case-sensitive). */
  predicate MatchesSearch(search: Option<string>, name: string) {
    HasSearch(search) ==> Contains(name, search.value)
  }

  // ---------------------------------------------------------------------
  // Sort keys and their orders
  // ---------------------------------------------------------------------

  function StockOf(p: Product): int { p.unitsOfStock }

  function PriceOf(p: Product): real { p.unitPrice }

  function ProductNameOf(p: Product): string { p.productName }

  function CategoryNameOf(c: Category): string { c.categoryName }

  /** The default comparer of `int`. */
  function IntLe(a: int, b: int): bool { a <= b }

  /** The default comparer of `decimal`. */
  function RealLe(a: real, b: real): bool { a <= b }

  /** The numeric comparers are total preorders, as the sort lemmas need. */
  lemma NumericOrdersArePreorders()
    ensures Total(IntLe) && Transitive(IntLe)
    ensures Total(RealLe) && Transitive(RealLe)
  {
    assert Total(IntLe) && Transitive(IntLe) by {
      forall a: int, b: int ensures IntLe(a, b) || IntLe(b, a) { }
      forall a: int, b: int, c: int | IntLe(a, b) && IntLe(b, c) ensures IntLe(a, c) { }
    }
    assert Total(RealLe) && Transitive(RealLe) by {
      forall a: real, b: real ensures RealLe(a, b) || RealLe(b, a) { }
      forall a: real, b: real, c: real | RealLe(a, b) && RealLe(b, c) ensures RealLe(a, c) { }
    }
  }

  // ---------------------------------------------------------------------
  // Pagination
  // ---------------------------------------------------------------------

  /** A page of a list: the count before slicing, the number of pages, and the slice. */
  datatype PageOf<T> = PageOf(totalCount: int, totalPages: int, data: seq<T>)

  /** The first index of page `page` (1-based), on mathematical integers. */
  function PageStart(page: int, pageSize: int): int {
    (page - 1) * pageSize
  }

  /**
   * `Count()`, `Math.Ceiling((double)count / pageSize)` and
   * `Skip((page - 1) * pageSize).Take(pageSize)`: the page is the
   * contiguous run of `sorted` from the page start (clamped to the list)
   * of at most `pageSize` elements; the page count is the least number of
   * full-size pages that hold the list (for a negative size, the ceiling
   * of the negative quotient).
   */
  function Paginate<T>(sorted: seq<T>, page: int, pageSize: int): (r: PageOf<T>)
    requires pageSize != 0
    ensures r.totalCount == |sorted|
    ensures pageSize > 0 ==> (r.totalPages - 1) * pageSize < |sorted| <= r.totalPages * pageSize
    ensures pageSize < 0 ==> r.totalPages * pageSize <= |sorted| < (r.totalPages - 1) * pageSize
    ensures var start := PageStart(page, pageSize);
      var lo := if start <= 0 then 0 else if start < |sorted| then start else |sorted|;
      var hi := if pageSize <= 0 then lo else if lo + pageSize <= |sorted| then lo + pageSize else |sorted|;
      r.data == sorted[lo..hi]
    ensures |r.data| <= if pageSize < 0 then 0 else pageSize
    ensures pageSize > 0 && page > r.totalPages ==> r.data == []
  {
    var totalCount := |sorted|;
    var totalPages := CeilDiv(totalCount, pageSize);
    var data := Page(sorted, PageStart(page, pageSize), pageSize);
    assert pageSize > 0 && page > totalPages ==> PageStart(page, pageSize) >= totalCount by {
      if pageSize > 0 && page > totalPages {
        assert page - 1 >= totalPages;
        MulMonotone(totalPages, page - 1, pageSize);
      }
    }
    PageOf(totalCount, totalPages, data)
  }

  /** Every element of a page is an element of the list. */
  lemma PageElementsInList<T>(sorted: seq<T>, page: int, pageSize: int)
    requires pageSize != 0
    ensures forall i :: 0 <= i < |Paginate(sorted, page, pageSize).data| ==> Paginate(sorted, page, pageSize).data[i] in sorted
  {
    var r := Paginate(sorted, page, pageSize);
    var start := PageStart(page, pageSize);
    var lo := if start <= 0 then 0 else if start < |sorted| then start else |sorted|;
    forall i | 0 <= i < |r.data|
      ensures r.data[i] in sorted
    {
      assert r.data[i] == sorted[lo + i];
    }
  }

  /**
   * Without range checks on the page number, every page number up to 1
   * (also 0 and negative ones) gives the first page: `Skip` of a
   * non-positive count skips nothing.
   */
  lemma FirstPageFromAnyLowPage<T>(sorted: seq<T>, page: int, pageSize: int)
    requires page <= 1 && pageSize > 0
    ensures Paginate(sorted, page, pageSize).data == Paginate(sorted, 1, pageSize).data
    ensures Paginate(sorted, page, pageSize).data == sorted[..if pageSize < |sorted| then pageSize else |sorted|]
  {
    MulNonPositive(page - 1, pageSize);
  }

  lemma MulNonPositive(a: int, b: int)
    requires a <= 0 && b > 0
    ensures a * b <= 0
  {
  }

  /** Euclidean division of a non-negative index by a positive size. */
  lemma DivisionSplit(i: int, d: int)
    requires d > 0 && i >= 0
    ensures i == (i / d) * d + i % d && 0 <= i % d < d && i / d >= 0
  {
  }

  /** Position `m` of a page that starts inside the list is element `start + m` of the list. */
  lemma PageElement<T>(s: seq<T>, start: int, size: int, m: int)
    requires 0 <= start && 0 <= m < size && start + m < |s|
    ensures m < |Page(s, start, size)| && Page(s, start, size)[m] == s[start + m]
  {
  }

  lemma MulMonotone(a: int, b: int, c: int)
    requires a <= b && c > 0
    ensures a * c <= b * c
  {
  }

  /**
   * With a positive page size, the element at index `i` of the list is on
   * page `i / pageSize + 1`, at position `i % pageSize`: every element is
   * on exactly the page its index says.
   */
  lemma ElementOnItsPage<T>(sorted: seq<T>, pageSize: int, i: int)
    requires pageSize > 0 && 0 <= i < |sorted|
    ensures var r := Paginate(sorted, i / pageSize + 1, pageSize);
      i % pageSize < |r.data| && r.data[i % pageSize] == sorted[i]
  {
    var q, m := i / pageSize, i % pageSize;
    DivisionSplit(i, pageSize);
    assert PageStart(q + 1, pageSize) == q * pageSize;
    PageElement(sorted, q * pageSize, pageSize, m);
  }
}
