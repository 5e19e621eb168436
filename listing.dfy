/**
 * The list operation shared by categories and tags: normalising the query string,
 * building one `where` for both the page and the count, and the pagination block.
 */
module Listing {
  import opened Wrappers
  import opened Js
  import opened Schema
  import opened Query

  const SORT_FIELDS: seq<string> := ["name", "createdAt", "updatedAt"]
  const SORT_ORDERS: seq<string> := ["asc", "desc"]

  /** The normalised query: `{ page, limit, search, sortBy, sortOrder }`. */
  datatype ListQuery = ListQuery(page: Number, limit: Number, search: Option<string>, sortBy: SortField, sortOrder: SortOrder)

  function FieldNamed(s: string): SortField
  {
    if s == "name" then Name else if s == "updatedAt" then UpdatedAt else CreatedAt
  }

  function FieldName(f: SortField): string
  {
    match f
    case Name => "name"
    case CreatedAt => "createdAt"
    case UpdatedAt => "updatedAt"
  }

  function OrderNamed(s: string): SortOrder
  {
    if s == "asc" then Asc else Desc
  }

  function OrderName(o: SortOrder): string
  {
    if o == Asc then "asc" else "desc"
  }

  predicate StringOrAbsent(q: Object, key: string)
  {
    key !in q || q[key].JStr?
  }

  predicate OneOfOrAbsent(q: Object, key: string, options: seq<string>)
  {
    key !in q || (q[key].JStr? && q[key].s in options)
  }

  predicate EmptyOrAbsent(q: Object, key: string)
  {
    key !in q || q[key] == JStr("")
  }

  /**
   * The list query schema of the category and tag controllers. Every refused field is
   * reported; an absent or empty page is 1 and limit 10; sortBy defaults to createdAt
   * and sortOrder to desc.
   */
  function ParseListQuery(q: Object): (r: Parse<ListQuery>)
    ensures r.Success? <==>
      && StringOrAbsent(q, "page") && StringOrAbsent(q, "limit") && StringOrAbsent(q, "search")
      && OneOfOrAbsent(q, "sortBy", SORT_FIELDS) && OneOfOrAbsent(q, "sortOrder", SORT_ORDERS)
    ensures r.Success? && EmptyOrAbsent(q, "page") ==> r.value.page == Int(1)
    ensures r.Success? && EmptyOrAbsent(q, "limit") ==> r.value.limit == Int(10)
    ensures r.Success? && "page" in q && q["page"].s != "" ==> r.value.page == ParseInt(q["page"].s)
    ensures r.Success? && "limit" in q && q["limit"].s != "" ==> r.value.limit == ParseInt(q["limit"].s)
    ensures r.Success? ==> r.value.search == if "search" in q then Some(q["search"].s) else None
    ensures r.Success? ==> FieldName(r.value.sortBy) == if "sortBy" in q then q["sortBy"].s else "createdAt"
    ensures r.Success? ==> OrderName(r.value.sortOrder) == if "sortOrder" in q then q["sortOrder"].s else "desc"
  {
    var page := OptionalIntString(q, "page", 1);
    var limit := OptionalIntString(q, "limit", 10);
    var search := OptionalString(q, "search");
    var sortBy := EnumOrDefault(q, "sortBy", SORT_FIELDS, "createdAt");
    var sortOrder := EnumOrDefault(q, "sortOrder", SORT_ORDERS, "desc");
    if page.Success? && limit.Success? && search.Success? && sortBy.Success? && sortOrder.Success? then
      Success(ListQuery(page.value, limit.value, search.value, FieldNamed(sortBy.value), OrderNamed(sortOrder.value)))
    else
      Failure(IssuesOf(page) + IssuesOf(limit) + IssuesOf(search) + IssuesOf(sortBy) + IssuesOf(sortOrder))
  }

  /** A refused query reports at least one issue, and one for each of page, limit, sortBy and sortOrder that is refused. */
  lemma ParseListQueryIssues(q: Object)
    requires ParseListQuery(q).Failure?
    ensures var issues := ParseListQuery(q).issues;
      && |issues| >= 1
      && (!OneOfOrAbsent(q, "sortBy", SORT_FIELDS) ==> Reported(issues, "sortBy"))
      && (!OneOfOrAbsent(q, "sortOrder", SORT_ORDERS) ==> Reported(issues, "sortOrder"))
      && (!StringOrAbsent(q, "page") ==> Reported(issues, "page"))
      && (!StringOrAbsent(q, "limit") ==> Reported(issues, "limit"))
  {
    var page := OptionalIntString(q, "page", 1);
    var limit := OptionalIntString(q, "limit", 10);
    var search := OptionalString(q, "search");
    var sortBy := EnumOrDefault(q, "sortBy", SORT_FIELDS, "createdAt");
    var sortOrder := EnumOrDefault(q, "sortOrder", SORT_ORDERS, "desc");
    var issues := IssuesOf(page) + IssuesOf(limit) + IssuesOf(search) + IssuesOf(sortBy) + IssuesOf(sortOrder);
    assert ParseListQuery(q).issues == issues;
    assert sortBy.Failure? ==> issues[|IssuesOf(page) + IssuesOf(limit) + IssuesOf(search)|].path == "sortBy";
    assert sortOrder.Failure? ==> issues[|issues| - |IssuesOf(sortOrder)|].path == "sortOrder";
    assert limit.Failure? ==> issues[|IssuesOf(page)|].path == "limit";
    assert page.Failure? ==> issues[0].path == "page";
  }

  /** `search ? { name: { contains: search } } : {}`: an empty search filters nothing. */
  function BuildWhere(search: Option<string>): (w: Where)
    ensures forall x :: Matches(w, x) <==> search.None? || Includes(x.name, search.value)
  {
    if search.Some? && search.value != "" then NameContains(search.value) else All
  }

  /** `Math.ceil(total / limit)`, in integers. */
  function CeilDiv(total: nat, limit: nat): (q: nat)
    requires limit > 0
    ensures q * limit >= total
    ensures q == 0 || (q - 1) * limit < total
  {
    var q := (total + limit - 1) / limit;
    var m := (total + limit - 1) % limit;
    assert q * limit + m == total + limit - 1;
    assert (q - 1) * limit == q * limit - limit;
    q
  }

  datatype Pagination = Pagination(currentPage: int, totalPages: nat, total: nat, hasNext: bool, hasPrev: bool, limit: int)

  datatype Filters = Filters(search: Option<string>, sortBy: SortField, sortOrder: SortOrder)

  datatype ListOutcome =
    | Rejected(issues: seq<Issue>)          // the schema threw: 400
    | StoreDependent(query: ListQuery)      // page or limit is NaN or below 1: passed to the store unchecked
    | Page(items: seq<Named>, pagination: Pagination, filters: Filters)

  /** The range of page and limit for which the store's `skip`/`take` behaviour is modelled. */
  predicate InDomain(q: ListQuery)
  {
    q.page.Int? && q.limit.Int? && q.page.value >= 1 && q.limit.value >= 1
  }

  /** The page for an accepted query: one `where` for both `findMany` and `count`. */
  function PageOf(rows: seq<Named>, q: ListQuery): (r: ListOutcome)
    requires InDomain(q)
    ensures r.Page? && r.pagination.currentPage == q.page.value && r.pagination.limit == q.limit.value
    ensures r.pagination.total == Count(rows, BuildWhere(q.search))
    ensures r.filters.sortBy == q.sortBy && r.filters.sortOrder == q.sortOrder
  {
    var page, limit := q.page.value, q.limit.value;
    var skip := (page - 1) * limit;
    var where := BuildWhere(q.search);
    var items := FindMany(rows, where, q.sortBy, q.sortOrder, skip, limit);
    var total := Count(rows, where);
    var totalPages := CeilDiv(total, limit);
    Page(items,
         Pagination(page, totalPages, total, page < totalPages, page > 1, limit),
         Filters(if q.search.Some? && q.search.value != "" then q.search else None, q.sortBy, q.sortOrder))
  }

  /** The list handler over the table's rows, in id order. */
  function List(rows: seq<Named>, query: Object): (r: ListOutcome)
    ensures r.Rejected? <==> ParseListQuery(query).Failure?
    ensures r.Rejected? ==> r.issues == ParseListQuery(query).issues
    ensures r.StoreDependent? <==> ParseListQuery(query).Success? && !InDomain(ParseListQuery(query).value)
    ensures r.Page? ==> r == PageOf(rows, ParseListQuery(query).value)
  {
    match ParseListQuery(query)
    case Failure(issues) => Rejected(issues)
    case Success(q) => if InDomain(q) then PageOf(rows, q) else StoreDependent(q)
  }

  // ----- properties -----

  /** A refused query is answered without reading the store: the rows make no difference. */
  lemma RejectedBeforeStore(rows1: seq<Named>, rows2: seq<Named>, query: Object)
    requires List(rows1, query).Rejected?
    ensures List(rows2, query) == List(rows1, query)
  {
  }

  /** A sortBy or sortOrder outside its enumeration is refused, with the field reported. */
  lemma BadSortRejected(rows: seq<Named>, query: Object)
    requires !OneOfOrAbsent(query, "sortBy", SORT_FIELDS) || !OneOfOrAbsent(query, "sortOrder", SORT_ORDERS)
    ensures List(rows, query).Rejected?
    ensures !OneOfOrAbsent(query, "sortBy", SORT_FIELDS) ==> Reported(List(rows, query).issues, "sortBy")
    ensures !OneOfOrAbsent(query, "sortOrder", SORT_ORDERS) ==> Reported(List(rows, query).issues, "sortOrder")
  {
    ParseListQueryIssues(query);
  }

  /** With no query parameters: page 1 of 10, newest first, no search. */
  lemma DefaultQuery(rows: seq<Named>)
    ensures List(rows, map[]).Page?
    ensures List(rows, map[]).pagination.currentPage == 1
    ensures List(rows, map[]).pagination.limit == 10
    ensures List(rows, map[]).filters == Filters(None, CreatedAt, Desc)
  {
    var q := ParseListQuery(map[]);
    assert q.Success? && q.value.page == Int(1) && q.value.limit == Int(10);
    assert FieldName(q.value.sortBy) == "createdAt" && OrderName(q.value.sortOrder) == "desc";
  }

  /**
   * The page holds the matching rows that remain after skipping `(page - 1) * limit`,
   * and at most `limit` of them, in the terms of the pagination it reports.
   */
  lemma PageSize(rows: seq<Named>, q: ListQuery)
    requires InDomain(q)
    ensures var p := PageOf(rows, q).pagination;
      |PageOf(rows, q).items| == Min(p.limit, Max(0, p.total - (p.currentPage - 1) * p.limit))
  {
    var skip := (q.page.value - 1) * q.limit.value;
    MultiplyMonotone(0, q.page.value - 1, q.limit.value);
    assert PageOf(rows, q).items == FindMany(rows, BuildWhere(q.search), q.sortBy, q.sortOrder, skip, q.limit.value);
    FindManySize(rows, BuildWhere(q.search), q.sortBy, q.sortOrder, skip, q.limit.value);
  }

  /** Every row on the page is a stored row that satisfies the query's filter. */
  lemma PageMembers(rows: seq<Named>, q: ListQuery)
    requires InDomain(q)
    ensures forall x :: x in PageOf(rows, q).items ==> x in rows && Matches(BuildWhere(q.search), x)
  {
    var page, limit := q.page.value, q.limit.value;
    var skip := (page - 1) * limit;
    MultiplyMonotone(0, page - 1, limit);
    var where := BuildWhere(q.search);
    assert PageOf(rows, q).items == FindMany(rows, where, q.sortBy, q.sortOrder, skip, limit);
    FindManyMembers(rows, where, q.sortBy, q.sortOrder, skip, limit);
  }

  /** The page is the run of the sorted matching rows that starts after the earlier pages. */
  lemma PageWindow(rows: seq<Named>, q: ListQuery, i: int)
    requires InDomain(q) && 0 <= i < |PageOf(rows, q).items|
    ensures var sorted := Sort(Filter(rows, BuildWhere(q.search)), q.sortBy, q.sortOrder);
      var skip := (q.page.value - 1) * q.limit.value;
      && skip + i < |sorted|
      && PageOf(rows, q).items[i] == sorted[skip + i]
  {
    var skip := (q.page.value - 1) * q.limit.value;
    MultiplyMonotone(0, q.page.value - 1, q.limit.value);
    var sorted := Sort(Filter(rows, BuildWhere(q.search)), q.sortBy, q.sortOrder);
    assert PageOf(rows, q).items == Window(sorted, skip, q.limit.value);
  }

  /** The page follows the requested sort field and direction. */
  lemma PageOrdered(rows: seq<Named>, q: ListQuery)
    requires InDomain(q)
    ensures Ordered(PageOf(rows, q).items, q.sortBy, q.sortOrder)
  {
    var page, limit := q.page.value, q.limit.value;
    var skip := (page - 1) * limit;
    MultiplyMonotone(0, page - 1, limit);
    var where := BuildWhere(q.search);
    assert PageOf(rows, q).items == FindMany(rows, where, q.sortBy, q.sortOrder, skip, limit);
    FindManyOrdered(rows, where, q.sortBy, q.sortOrder, skip, limit);
  }

  /**
   * The page and the count use one `where`. A non-empty search is echoed, every row on
   * the page contains it, and the total counts exactly the rows that contain it; an
   * absent or empty search filters nothing and is echoed as null.
   */
  lemma SearchFilter(rows: seq<Named>, q: ListQuery)
    requires InDomain(q)
    ensures var r := PageOf(rows, q);
      if q.search.Some? && q.search.value != "" then
        && r.filters.search == q.search
        && (forall x :: x in r.items ==> Includes(x.name, q.search.value))
        && r.pagination.total == |Filter(rows, NameContains(q.search.value))|
      else
        && r.filters.search == None
        && r.pagination.total == |rows|
  {
    var r := PageOf(rows, q);
    var where := BuildWhere(q.search);
    PageMembers(rows, q);
    assert r.pagination.total == Count(rows, where);
    CountIsFilterSize(rows, where);
    if q.search.Some? && q.search.value != "" {
      assert where == NameContains(q.search.value);
      forall x | x in r.items ensures Includes(x.name, q.search.value) {
        assert Matches(where, x);
      }
    } else {
      assert where == All;
      FilterAll(rows);
    }
  }

  /** Searching only narrows: the searched rows are among the unfiltered ones, and their total never exceeds the unfiltered one. */
  lemma {:induction false} SearchNarrows(rows: seq<Named>, term: string)
    ensures forall x :: x in Filter(rows, NameContains(term)) ==> x in Filter(rows, All)
    ensures Count(rows, NameContains(term)) <= Count(rows, All)
  {
    forall x | x in Filter(rows, NameContains(term)) ensures x in Filter(rows, All) {
      FilterMembers(rows, NameContains(term), x);
      FilterMembers(rows, All, x);
    }
    if rows != [] {
      SearchNarrows(rows[..|rows| - 1], term);
    }
  }

  /**
   * totalPages is the least number of pages of `limit` rows that hold all `total` rows;
   * hasNext holds exactly when matching rows lie beyond this page, hasPrev exactly
   * when the page is past the first.
   */
  lemma PaginationFlags(rows: seq<Named>, q: ListQuery)
    requires InDomain(q)
    ensures var p := PageOf(rows, q).pagination;
      && p.totalPages * p.limit >= p.total
      && (p.totalPages == 0 || (p.totalPages - 1) * p.limit < p.total)
      && (p.hasNext <==> p.currentPage < p.totalPages)
      && (p.hasNext <==> p.currentPage * p.limit < p.total)
      && (p.hasPrev <==> p.currentPage > 1)
  {
    var p := PageOf(rows, q).pagination;
    var page, limit, total, pages := p.currentPage, p.limit, p.total, p.totalPages;
    if page < pages {
      MultiplyMonotone(page, pages - 1, limit);
    } else {
      MultiplyMonotone(pages, page, limit);
    }
  }

  lemma MultiplyMonotone(a: int, b: int, c: nat)
    requires a <= b
    ensures a * c <= b * c
  {
  }

  /** With no matching rows, page 1 is empty and reports no pages and neither neighbour. */
  lemma EmptyFirstPage(rows: seq<Named>, q: ListQuery)
    requires InDomain(q) && q.page.value == 1
    requires Count(rows, BuildWhere(q.search)) == 0
    ensures var r := PageOf(rows, q);
      r.items == [] && r.pagination.totalPages == 0 && !r.pagination.hasNext && !r.pagination.hasPrev
  {
    var p := PageOf(rows, q).pagination;
    var n := |PageOf(rows, q).items|;
    PageSize(rows, q);
    NothingRemains(n, p.total, p.currentPage, p.limit);
    NoRowsNoPages(q.limit.value);
  }

  lemma NothingRemains(n: int, total: int, page: int, limit: int)
    requires n == Min(limit, Max(0, total - (page - 1) * limit))
    requires total == 0 && page == 1 && limit >= 0
    ensures n == 0
  {
  }

  lemma NoRowsNoPages(limit: nat)
    requires limit > 0
    ensures CeilDiv(0, limit) == 0
  {
    var q := CeilDiv(0, limit);
    if q > 0 {
      MultiplyMonotone(1, q, limit);
      assert false;
    }
  }

  /**
   * On the last page there is no next page, and it holds the rest of the matching
   * rows: `total mod limit` of them, or `limit` when that is 0.
   */
  lemma LastPage(rows: seq<Named>, q: ListQuery)
    requires InDomain(q)
    requires q.page.value == PageOf(rows, q).pagination.totalPages
    ensures var r := PageOf(rows, q);
      var total, limit := r.pagination.total, r.pagination.limit;
      && !r.pagination.hasNext
      && |r.items| == total - (r.pagination.currentPage - 1) * limit
      && |r.items| == (if total % limit == 0 then limit else total % limit)
  {
    var p := PageOf(rows, q).pagination;
    var n := |PageOf(rows, q).items|;
    PageSize(rows, q);
    PaginationFlags(rows, q);
    LastPageRest(n, p.total, p.limit, p.currentPage, p.totalPages);
  }

  /** The arithmetic of the last page, given the page size and the bounds that `CeilDiv` puts on the page count. */
  lemma LastPageRest(n: int, total: int, limit: int, page: int, pages: int)
    requires limit > 0 && page >= 1 && pages == page
    requires pages * limit >= total && (pages == 0 || (pages - 1) * limit < total)
    requires n == Min(limit, Max(0, total - (page - 1) * limit))
    ensures n == total - (page - 1) * limit
    ensures n == (if total % limit == 0 then limit else total % limit)
  {
    var rest := total - (page - 1) * limit;
    assert (page - 1) * limit + limit == page * limit;
    if rest == limit {
      ModUnique(total, limit, page, 0);
    } else {
      ModUnique(total, limit, page - 1, rest);
    }
  }

  lemma ModUnique(a: int, d: int, q: int, r: int)
    requires 0 <= r < d && a == q * d + r
    ensures a % d == r && a / d == q
  {
    var q', r' := a / d, a % d;
    assert a == q' * d + r';
    assert (q - q') * d == r' - r;
    if q > q' {
      MultiplyMonotone(1, q - q', d);
      assert false;
    } else if q < q' {
      MultiplyMonotone(1, q' - q, d);
      assert false;
    }
  }
}
