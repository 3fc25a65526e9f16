/**
 * `CategoriesController.GetListCategories`: the search filter, the sort
 * by name in the requested direction (any other direction is refused),
 * and pagination. Page and page size are not range-checked. A direction
 * that names no member already fails model binding.
 */
module Categories {
  import opened Wrappers
  import opened Linq
  import opened Catalog

  /** The endpoint's answers. */
  datatype CategoriesResponse =
    | CategoriesOk(result: PageOf<Category>)
    | CategoriesBadRequest(message: string)
    | CategoriesInvalidQuery   // the automatic 400 for a model-state error

  const InvalidSortMessage: string := "Invalid sort direction"

  function SearchFilter(search: Option<string>): Category -> bool {
    (c: Category) => MatchesSearch(search, c.categoryName)
  }

  /**
   * `if (!string.IsNullOrEmpty(search)) categories = categories.Where(c => c.CategoryName.Contains(search))`:
   * the categories whose name passes the search, in repository order.
   */
  function FilterCategories(categories: seq<Category>, search: Option<string>): (r: seq<Category>)
    ensures r == Where(categories, SearchFilter(search))
  {
    var byName := (c: Category) => HasSearch(search) && Contains(c.categoryName, search.value);
    if HasSearch(search) then
      WhereExtensional(categories, byName, SearchFilter(search));
      Where(categories, byName)
    else
      WhereAll(categories, SearchFilter(search));
      categories
  }

  /**
   * The `switch` on the direction: a stable sort by name for `asc` and
   * `desc`, nothing for a value that names no member. A sort is a
   * permutation.
   */
  function SortCategories(s: seq<Category>, sortDirection: Sort, nameLe: (string, string) -> bool): (r: Option<seq<Category>>)
    ensures r.None? <==> sortDirection.Undefined?
    ensures r.Some? ==> multiset(r.value) == multiset(s)
  {
    match sortDirection
    case Asc => Some(OrderBy(s, CategoryNameOf, nameLe))
    case Desc => Some(OrderByDescending(s, CategoryNameOf, nameLe))
    case Undefined(_) => None
  }

  /** `asc` orders names ascending and `desc` descending under `nameLe`. */
  lemma SortCategoriesOrdered(s: seq<Category>, sortDirection: Sort, nameLe: (string, string) -> bool)
    requires Total(nameLe) && Transitive(nameLe)
    ensures var r := SortCategories(s, sortDirection, nameLe);
      && (sortDirection == Asc ==>
            forall i, j :: 0 <= i < j < |r.value| ==> nameLe(r.value[i].categoryName, r.value[j].categoryName))
      && (sortDirection == Desc ==>
            forall i, j :: 0 <= i < j < |r.value| ==> nameLe(r.value[j].categoryName, r.value[i].categoryName))
  {
    if sortDirection == Asc {
      OrderBySorted(s, CategoryNameOf, nameLe);
    } else if sortDirection == Desc {
      OrderByDescendingSorted(s, CategoryNameOf, nameLe);
    }
  }

  /** In both directions, categories whose names tie keep their filtered order. */
  lemma SortCategoriesStable(s: seq<Category>, sortDirection: Sort, nameLe: (string, string) -> bool, name: string)
    requires Transitive(nameLe)
    requires !sortDirection.Undefined?
    ensures var tied := TiedWith(CategoryNameOf, nameLe, name);
      Where(SortCategories(s, sortDirection, nameLe).value, tied) == Where(s, tied)
  {
    if sortDirection == Asc {
      OrderByStable(s, CategoryNameOf, nameLe, name);
    } else {
      OrderByDescendingStable(s, CategoryNameOf, nameLe, name);
    }
  }

  /**
   * The body of `GetListCategories` for a repository list. An undefined
   * direction is refused; otherwise the answer is the page of the
   * filtered list sorted in that direction. A negative page size gives an
   * empty page; a page number below 1 gives the first page
   * (`FirstPageFromAnyLowPage`).
   */
  function ListCategoriesAction(categories: seq<Category>, page: int, pageSize: int, sortDirection: Sort,
                                search: Option<string>, nameLe: (string, string) -> bool): (r: CategoriesResponse)
    requires pageSize != 0
    ensures !r.CategoriesInvalidQuery?
    ensures r.CategoriesBadRequest? <==> sortDirection.Undefined?
    ensures r.CategoriesBadRequest? ==> r.message == InvalidSortMessage
    ensures r.CategoriesOk? ==>
      var filtered := Where(categories, SearchFilter(search));
      && r.result == Paginate(SortCategories(filtered, sortDirection, nameLe).value, page, pageSize)
      && r.result.totalCount == |filtered|
      && (forall i :: 0 <= i < |r.result.data| ==>
            r.result.data[i] in categories && MatchesSearch(search, r.result.data[i].categoryName))
      && (pageSize < 0 ==> r.result.data == [])
  {
    var filtered := FilterCategories(categories, search);
    match SortCategories(filtered, sortDirection, nameLe)
    case None => CategoriesBadRequest(InvalidSortMessage)
    case Some(sorted) =>
      var result := Paginate(sorted, page, pageSize);
      PageOfMatches(categories, search, sorted, page, pageSize);
      CategoriesOk(result)
  }

  /**
   * The endpoint: model binding, then the action. A direction that names
   * no member is refused by the binder, so the action's "Invalid sort
   * direction" answer is never sent, and every bound request gets a page.
   */
  function GetListCategories(categories: seq<Category>, page: int, pageSize: int, sortDirection: Sort,
                             search: Option<string>, nameLe: (string, string) -> bool): (r: CategoriesResponse)
    requires pageSize != 0
    ensures r.CategoriesInvalidQuery? <==> sortDirection.Undefined?
    ensures !r.CategoriesBadRequest?
    ensures r.CategoriesOk? <==> !sortDirection.Undefined?
    ensures r.CategoriesOk? ==> r == ListCategoriesAction(categories, page, pageSize, sortDirection, search, nameLe)
  {
    if sortDirection.Undefined? then CategoriesInvalidQuery
    else ListCategoriesAction(categories, page, pageSize, sortDirection, search, nameLe)
  }

  /** Every category on a page of a sort of the filtered list is a repository category that passes the search. */
  lemma PageOfMatches(categories: seq<Category>, search: Option<string>, sorted: seq<Category>, page: int, pageSize: int)
    requires pageSize != 0
    requires multiset(sorted) == multiset(Where(categories, SearchFilter(search)))
    ensures var data := Paginate(sorted, page, pageSize).data;
      forall i :: 0 <= i < |data| ==> data[i] in categories && MatchesSearch(search, data[i].categoryName)
  {
    var filtered := Where(categories, SearchFilter(search));
    var data := Paginate(sorted, page, pageSize).data;
    PageElementsInList(sorted, page, pageSize);
    forall i | 0 <= i < |data|
      ensures data[i] in categories && MatchesSearch(search, data[i].categoryName)
    {
      var x := data[i];
      assert multiset(sorted)[x] > 0;
      assert x in filtered;
      assert SearchFilter(search)(x);
      assert multiset(categories)[x] == multiset(filtered)[x];
    }
  }
}
