/** internal/data/filters.go: validation of the paging and sorting query
    parameters, and the LIMIT / OFFSET / ORDER BY values derived from them. */
module Filters {
  import opened Common
  import opened Text
  import opened Validation

  datatype Filter = Filter(page: int, pageSize: int, sort: Bytes, safeSortList: seq<Bytes>)

  const MaxPage: int := 10_000_000
  const MaxPageSize: int := 100

  predicate PageOk(f: Filter) { 0 < f.page <= MaxPage }
  predicate PageSizeOk(f: Filter) { 0 < f.pageSize <= MaxPageSize }
  predicate SortOk(f: Filter) { f.sort in f.safeSortList }

  /** ValidateFilters: five CheckAdd calls. The two page-size checks record
      their message under the key "page", as the page checks do. Exactly the
      keys "page" (bad page or page size) and "sort" (sort key not in the
      safe list) are added; earlier messages are kept. */
  function ValidateFilters(errors: Errors, f: Filter): (r: Errors)
    ensures Extends(r, errors)
    ensures r.Keys == errors.Keys
      + (if PageOk(f) && PageSizeOk(f) then {} else {"page"})
      + (if SortOk(f) then {} else {"sort"})
  {
    var e1 := Checked(errors, f.page > 0, "page", "must be postive integer");
    var e2 := Checked(e1, f.page <= MaxPage, "page", "cannot exceed 10 million");
    var e3 := Checked(e2, f.pageSize > 0, "page", "must be postive integer");
    var e4 := Checked(e3, f.pageSize <= MaxPageSize, "page", "cannot exceed 100");
    Checked(e4, ValueInList(f.sort, f.safeSortList), "sort", "invalid")
  }

  /** A fresh validator stays valid exactly when all three conditions hold. */
  lemma ValidateFiltersValid(f: Filter)
    ensures NoErrors(ValidateFilters(map[], f)) <==> PageOk(f) && PageSizeOk(f) && SortOk(f)
  {
    if !PageOk(f) || !PageSizeOk(f) {
      assert "page" in ValidateFilters(map[], f);
    }
    if !SortOk(f) {
      assert "sort" in ValidateFilters(map[], f);
    }
  }

  /** Because the first message wins, a bad page hides any page-size message. */
  lemma BadPageHidesPageSize(f: Filter)
    requires !PageOk(f)
    ensures ValidateFilters(map[], f)["page"] ==
      if f.page <= 0 then "must be postive integer" else "cannot exceed 10 million"
  {
  }

  /** Filter.Limit: the LIMIT of the listing query. */
  function Limit(f: Filter): (r: int)
    ensures PageSizeOk(f) ==> 1 <= r <= MaxPageSize
    ensures r == f.pageSize
  {
    f.pageSize
  }

  /** Filter.Offset: the rows of the earlier pages. */
  function Offset(f: Filter): (r: int)
    ensures PageOk(f) && PageSizeOk(f) ==> 0 <= r < 1_000_000_000
    ensures PageOk(f) && PageSizeOk(f) ==> r + Limit(f) == f.page * f.pageSize
  {
    ProductBound(f.page - 1, f.pageSize);
    (f.page - 1) * f.pageSize
  }

  lemma ProductBound(a: int, b: int)
    ensures 0 <= a < MaxPage && 0 < b <= MaxPageSize ==> 0 <= a * b < 1_000_000_000
  {
    if 0 <= a < MaxPage && 0 < b <= MaxPageSize {
      assert a * b <= a * MaxPageSize;
      assert a * MaxPageSize < MaxPage * MaxPageSize;
    }
  }

  /** The keyword spliced into ORDER BY: ASC or DESC. */
  datatype Direction = Asc | Desc

  /** Filter.SortDirection: descending exactly when the sort key starts with "-". */
  function SortDirection(f: Filter): (r: Direction)
    ensures r == Desc <==> |f.sort| > 0 && f.sort[0] == Dash
  {
    if HasPrefix(f.sort, [Dash]) then Desc else Asc
  }

  /** Filter.SortColumn: the sort key without its "-". The source panics for a
      key outside the safe list; here that is excluded by the precondition. */
  function SortColumn(f: Filter): (r: Bytes)
    requires SortOk(f)
    ensures SortDirection(f) == Desc ==> [Dash] + r == f.sort
    ensures SortDirection(f) == Asc ==> r == f.sort
  {
    TrimPrefix(f.sort, [Dash])
  }

  /** The key a client sends for a column and direction. */
  function SortKey(column: Bytes, dir: Direction): Bytes
  {
    if dir == Desc then [Dash] + column else column
  }

  /** Column and direction together give back the sort key they came from. */
  lemma SortKeyRoundTrip(f: Filter)
    requires SortOk(f)
    ensures SortKey(SortColumn(f), SortDirection(f)) == f.sort
  {
  }

  datatype Metadata = Metadata(currentPage: int, pageSize: int, totalRecords: int, lastPage: int)

  /** The ceiling of total / size (math.Ceil on the float quotient). */
  function CeilDiv(total: int, size: int): (r: int)
    requires size > 0
    ensures (r - 1) * size < total <= r * size
  {
    if total % size == 0 then total / size else total / size + 1
  }

  /** NewMetadata: the paging values are copied, LastPage is the number of
      pages needed for all records (0 when there are none). */
  function NewMetadata(currentPage: int, pageSize: int, totalRecords: int): (m: Metadata)
    requires pageSize > 0
    ensures m.currentPage == currentPage && m.pageSize == pageSize && m.totalRecords == totalRecords
    ensures (m.lastPage - 1) * pageSize < totalRecords <= m.lastPage * pageSize
    ensures totalRecords == 0 ==> m.lastPage == 0
  {
    Metadata(currentPage, pageSize, totalRecords, CeilDiv(totalRecords, pageSize))
  }
}
