/** The engine both interaction tables share: the search box, the sort on a
    clicked column, and the pages of the sorted rows. The state fields are
    the tables' `searchTerm`, `filterColumn`, `sortField`, `sortDirection`,
    `currentPage` and `pageSize`. */
module TableEngine {
  import opened Wrappers
  import opened Seqs
  import opened Text
  import opened Records
  import Sorting

  /* ------------------------------------------------------------- search */

  /** `value.toLowerCase().includes(term)` with `term` already lower-case. */
  predicate Includes(value: string, term: string)
  {
    Contains(Lower(value), term)
  }

  /** The same on a nullable field: a missing or empty field never matches. */
  predicate OptIncludes(value: Option<string>, term: string)
  {
    Truthy(value) && Includes(value.value, term)
  }

  /** The columns the search box can be narrowed to. */
  const SearchColumns: seq<string> := [
    "agent", "customer", "queue", "mediaType", "direction", "wrapUp", "flow", "conversationId"]

  /** The search test of one column; an unrecognised column passes. */
  predicate MatchesColumn(x: Interaction, column: string, term: string)
  {
    if column == "agent" then Includes(x.agent(), term)
    else if column == "customer" then Includes(x.customer(), term)
    else if column == "queue" then Includes(x.queue(), term)
    else if column == "mediaType" then Includes(x.mediaType(), term)
    else if column == "direction" then Includes(x.direction(), term)
    else if column == "wrapUp" then OptIncludes(x.wrapUp(), term)
    else if column == "flow" then OptIncludes(x.flow(), term)
    else if column == "conversationId" then Includes(x.conversationId(), term)
    else true
  }

  /** The search over all columns (ANI and DNIS are not searched). */
  predicate MatchesAny(x: Interaction, term: string)
  {
    || Includes(x.agent(), term)
    || Includes(x.customer(), term)
    || Includes(x.queue(), term)
    || Includes(x.mediaType(), term)
    || Includes(x.direction(), term)
    || OptIncludes(x.wrapUp(), term)
    || OptIncludes(x.flow(), term)
    || Includes(x.conversationId(), term)
  }

  /** The search box's test: an empty term passes everything; otherwise the
      lower-cased term is looked for in every column or in the chosen one. */
  predicate SearchPasses(x: Interaction, searchTerm: string, filterColumn: string)
  {
    searchTerm == "" ||
    (var t := Lower(searchTerm);
     if filterColumn == "all" then MatchesAny(x, t) else MatchesColumn(x, filterColumn, t))
  }

  /** Searching everywhere is searching some one of the eight columns. */
  lemma MatchesAnyIsSomeColumn(x: Interaction, term: string)
    ensures MatchesAny(x, term) <==> exists i :: 0 <= i < |SearchColumns| && MatchesColumn(x, SearchColumns[i], term)
  {
    if MatchesAny(x, term) {
      if Includes(x.agent(), term) { assert MatchesColumn(x, SearchColumns[0], term); }
      else if Includes(x.customer(), term) { assert MatchesColumn(x, SearchColumns[1], term); }
      else if Includes(x.queue(), term) { assert MatchesColumn(x, SearchColumns[2], term); }
      else if Includes(x.mediaType(), term) { assert MatchesColumn(x, SearchColumns[3], term); }
      else if Includes(x.direction(), term) { assert MatchesColumn(x, SearchColumns[4], term); }
      else if OptIncludes(x.wrapUp(), term) { assert MatchesColumn(x, SearchColumns[5], term); }
      else if OptIncludes(x.flow(), term) { assert MatchesColumn(x, SearchColumns[6], term); }
      else { assert MatchesColumn(x, SearchColumns[7], term); }
    }
  }

  /** The empty term keeps every row; a column outside the list keeps every
      row; the term's letter case does not matter. */
  lemma SearchPassesSpec(x: Interaction, searchTerm: string, filterColumn: string)
    ensures searchTerm == "" ==> SearchPasses(x, searchTerm, filterColumn)
    ensures filterColumn != "all" && filterColumn !in SearchColumns ==> SearchPasses(x, searchTerm, filterColumn)
    ensures SearchPasses(x, searchTerm, filterColumn) <==> SearchPasses(x, Lower(searchTerm), filterColumn)
  {
    LowerIdempotent(searchTerm);
  }

  /** The search never looks at ANI or DNIS. */
  lemma SearchIgnoresAniDnis(x: Interaction, ani: Option<string>, dnis: Option<string>, searchTerm: string, filterColumn: string)
    ensures SearchPasses(x, searchTerm, filterColumn) <==>
      SearchPasses(Interaction(x.id, x.rec.(ani := ani, dnis := dnis)), searchTerm, filterColumn)
  {
  }

  /** A row with a given customer, the other fields blank. */
  function CustomerRow(customer: string): Interaction
  {
    Interaction(1, Record("", "", customer, "", "", "", 0, None, None, 0, 0, None, None))
  }

  /** An upper-case term finds a lower-case value. */
  lemma SearchIgnoresCase()
    ensures SearchPasses(CustomerRow("alice"), "ALI", "all")
    ensures SearchPasses(CustomerRow("alice"), "ALI", "customer")
    ensures !SearchPasses(CustomerRow("alice"), "ALI", "agent")
  {
    assert Lower("ALI") == "ali";
    assert Lower("alice") == "alice";
    assert IsPrefix("ali", "alice");
    assert Lower("") == "";
  }

  /* --------------------------------------------------------------- sort */

  datatype SortField =
    | MediaTypeField | AgentField | CustomerField | StartTimeField | EndTimeField
    | DurationField | DirectionField | QueueField | WrapUpField

  /** What the comparator compares for a field: instants and durations as
      numbers, every other field as its lower-cased text, a missing value
      as the empty string. */
  function SortValue(x: Interaction, field: SortField): Sorting.SortKey
  {
    match field
    case StartTimeField => Sorting.Num(x.startTime())
    case EndTimeField => Sorting.Num(x.endTime())
    case DurationField => Sorting.Num(x.duration())
    case MediaTypeField => Sorting.Str(Lower(x.mediaType()))
    case AgentField => Sorting.Str(Lower(x.agent()))
    case CustomerField => Sorting.Str(Lower(x.customer()))
    case DirectionField => Sorting.Str(Lower(x.direction()))
    case QueueField => Sorting.Str(Lower(x.queue()))
    case WrapUpField => Sorting.Str(Lower(if Truthy(x.wrapUp()) then x.wrapUp().value else ""))
  }

  /** The comparator's key: with no sort field it returns 0 for every pair. */
  function RowKey(field: Option<SortField>): Interaction -> Sorting.SortKey
  {
    x => if field.Some? then SortValue(x, field.value) else Sorting.Num(0)
  }

  /** `sortedInteractions`: a stable sort by the row key. */
  function SortRows(xs: seq<Interaction>, field: Option<SortField>, dir: Sorting.Direction): seq<Interaction>
  {
    Sorting.SortBy(xs, RowKey(field), dir)
  }

  /** The sorted rows are a rearrangement of the rows, in order of the key
      (descending reverses the comparison), rows with equal keys keep their
      order, and with no sort field nothing moves. */
  lemma SortRowsSpec(xs: seq<Interaction>, field: Option<SortField>, dir: Sorting.Direction)
    ensures multiset(SortRows(xs, field, dir)) == multiset(xs)
    ensures Sorting.SortedBy(SortRows(xs, field, dir), RowKey(field), dir)
    ensures forall k :: Select(SortRows(xs, field, dir), RowKey(field), k) == Select(xs, RowKey(field), k)
    ensures field.None? ==> SortRows(xs, field, dir) == xs
  {
    Sorting.SortBySorted(xs, RowKey(field), dir);
    forall k ensures Select(SortRows(xs, field, dir), RowKey(field), k) == Select(xs, RowKey(field), k) {
      Sorting.SortByStable(xs, RowKey(field), dir, k);
    }
    if field.None? {
      Sorting.SortByOfSorted(xs, RowKey(field), dir);
    }
  }

  /* --------------------------------------------------------- pagination */

  const PageSizeOptions: seq<nat> := [10, 20, 50, 100]
  const DefaultPageSize: nat := 10

  /** `Math.ceil(n / pageSize)`. */
  function TotalPages(n: nat, pageSize: nat): (t: nat)
    requires pageSize > 0
  {
    (n + pageSize - 1) / pageSize
  }

  /** Page `page` (counted from 1): `slice((page - 1) * size, page * size)`.
      The page number is not clamped here. */
  function Page<T>(s: seq<T>, page: int, pageSize: nat): seq<T>
  {
    JsSlice(s, (page - 1) * pageSize, (page - 1) * pageSize + pageSize)
  }

  /** Just enough pages for every row: none for no rows. */
  lemma TotalPagesSpec(n: nat, pageSize: nat)
    requires pageSize > 0
    ensures TotalPages(n, pageSize) == 0 <==> n == 0
    ensures (TotalPages(n, pageSize) - 1) * pageSize < n <= TotalPages(n, pageSize) * pageSize || n == 0
  {
    var t := TotalPages(n, pageSize);
    var r := (n + pageSize - 1) % pageSize;
    assert n + pageSize - 1 == t * pageSize + r;
  }

  /** A page inside the range holds the rows from `(page - 1) * size` up to
      the next multiple of the size or the end; a page past the end, or
      page 0, is empty. */
  lemma PageSpec<T>(s: seq<T>, page: int, pageSize: nat)
    requires pageSize > 0
    ensures 1 <= page && (page - 1) * pageSize < |s| ==>
      Page(s, page, pageSize) == s[(page - 1) * pageSize .. Min(page * pageSize, |s|)]
    ensures page > TotalPages(|s|, pageSize) ==> Page(s, page, pageSize) == []
    ensures page == 0 ==> Page(s, page, pageSize) == []
  {
    if 1 <= page && (page - 1) * pageSize < |s| {
      PageInside(s, page, pageSize, (page - 1) * pageSize);
    }
    if page > TotalPages(|s|, pageSize) {
      PagePastEnd(s, page, pageSize);
    }
    if page == 0 {
      assert Page(s, page, pageSize) == JsSlice(s, 0 - pageSize as int, 0);
    }
  }

  lemma PageInside<T>(s: seq<T>, page: int, pageSize: nat, lo: nat)
    requires pageSize > 0 && 1 <= page && lo == (page - 1) * pageSize < |s|
    ensures Page(s, page, pageSize) == s[lo .. Min(page * pageSize, |s|)]
  {
    assert page * pageSize == lo + pageSize;
  }

  lemma PagePastEnd<T>(s: seq<T>, page: int, pageSize: nat)
    requires pageSize > 0 && page > TotalPages(|s|, pageSize)
    ensures Page(s, page, pageSize) == []
  {
    var t := TotalPages(|s|, pageSize);
    var lo := (page - 1) * pageSize;
    assert |s| <= t * pageSize by {
      TotalPagesSpec(|s|, pageSize);
    }
    assert t * pageSize <= lo by {
      MulMonotone(pageSize, t, page - 1);
    }
    assert Page(s, page, pageSize) == JsSlice(s, lo, lo + pageSize);
  }

  lemma MulMonotone(a: nat, b: int, c: int)
    requires b <= c
    ensures a * b <= a * c
  {
  }

  /** The pages of `s` from offset `lo` on, each `pageSize` rows long but
      the last. */
  function Chunks<T>(s: seq<T>, lo: nat, pageSize: nat): seq<seq<T>>
    requires pageSize > 0
    decreases |s| - lo
  {
    if lo >= |s| then [] else [JsSlice(s, lo, lo + pageSize)] + Chunks(s, lo + pageSize, pageSize)
  }

  /** Every page of `s`, page 1 first. */
  function Pages<T>(s: seq<T>, pageSize: nat): seq<seq<T>>
    requires pageSize > 0
  {
    Chunks(s, 0, pageSize)
  }

  lemma {:induction false} ChunksFlatten<T>(s: seq<T>, lo: nat, pageSize: nat)
    requires pageSize > 0 && lo <= |s|
    ensures Flatten(Chunks(s, lo, pageSize)) == s[lo..]
    decreases |s| - lo
  {
    if lo < |s| {
      var hi := Min(lo + pageSize, |s|);
      var rest := Chunks(s, lo + pageSize, pageSize);
      assert Chunks(s, lo, pageSize) == [s[lo..hi]] + rest;
      if lo + pageSize <= |s| {
        ChunksFlatten(s, lo + pageSize, pageSize);
      } else {
        assert rest == [];
      }
      assert Flatten(Chunks(s, lo, pageSize)) == s[lo..hi] + Flatten(rest);
      assert s[lo..] == s[lo..hi] + s[hi..];
    }
  }

  lemma {:induction false} ChunksCount<T>(s: seq<T>, lo: nat, pageSize: nat)
    requires pageSize > 0
    ensures lo + |Chunks(s, lo, pageSize)| * pageSize >= |s|
    ensures |Chunks(s, lo, pageSize)| > 0 ==> lo + (|Chunks(s, lo, pageSize)| - 1) * pageSize < |s|
    decreases |s| - lo
  {
    if lo < |s| {
      var c := |Chunks(s, lo, pageSize)|;
      var c' := |Chunks(s, lo + pageSize, pageSize)|;
      ChunksCount(s, lo + pageSize, pageSize);
      assert c == c' + 1;
      assert c * pageSize == pageSize + c' * pageSize;
      if c' > 0 {
        assert (c - 1) * pageSize == pageSize + (c' - 1) * pageSize;
      }
    }
  }

  lemma {:induction false} ChunksAt<T>(s: seq<T>, lo: nat, pageSize: nat, i: nat, offset: int)
    requires pageSize > 0 && i < |Chunks(s, lo, pageSize)| && offset == lo + i * pageSize
    ensures Chunks(s, lo, pageSize)[i] == JsSlice(s, offset, offset + pageSize)
    decreases |s| - lo
  {
    if i > 0 {
      var rest := Chunks(s, lo + pageSize, pageSize);
      assert Chunks(s, lo, pageSize) == [JsSlice(s, lo, lo + pageSize)] + rest;
      assert offset == (lo + pageSize) + (i - 1) * pageSize by {
        MulStep(i, pageSize);
      }
      ChunksAt(s, lo + pageSize, pageSize, i - 1, offset);
    }
  }

  lemma MulStep(i: nat, n: nat)
    requires i > 0
    ensures i * n == n + (i - 1) * n
  {
  }

  /** There are as many pages as the page count, page `i + 1` is the slice
      the table shows for it, and the pages one after another are the rows:
      every row on exactly one page, in order. */
  lemma PagesPartition<T>(s: seq<T>, pageSize: nat)
    requires pageSize > 0
    ensures |Pages(s, pageSize)| == TotalPages(|s|, pageSize)
    ensures Flatten(Pages(s, pageSize)) == s
    ensures forall i :: 0 <= i < |Pages(s, pageSize)| ==> Pages(s, pageSize)[i] == Page(s, i + 1, pageSize)
  {
    ChunksFlatten(s, 0, pageSize);
    ChunksCount(s, 0, pageSize);
    CeilUnique(|s|, pageSize, |Pages(s, pageSize)|);
    forall i | 0 <= i < |Pages(s, pageSize)| ensures Pages(s, pageSize)[i] == Page(s, i + 1, pageSize) {
      ChunksAt(s, 0, pageSize, i, i * pageSize);
    }
  }

  /** The page count is the only `t` with `(t - 1) * size < n <= t * size`. */
  lemma CeilUnique(n: nat, pageSize: nat, t: nat)
    requires pageSize > 0
    requires n == 0 ==> t == 0
    requires n > 0 ==> (t - 1) * pageSize < n <= t * pageSize
    ensures t == TotalPages(n, pageSize)
  {
    TotalPagesSpec(n, pageSize);
    var c := TotalPages(n, pageSize);
    if n > 0 {
      if t < c {
        MulMonotone(pageSize, t, c - 1);
      } else if t > c {
        MulMonotone(pageSize, c, t - 1);
      }
    }
  }

  /* -------------------------------------------------------------- state */

  /** The table's state shared by both tables. */
  datatype View = View(
    searchTerm: string,
    filterColumn: string,
    sortField: Option<SortField>,
    sortDirection: Sorting.Direction,
    currentPage: int,
    pageSize: nat)

  const InitialView := View("", "all", None, Sorting.Asc, 1, DefaultPageSize)

  /** `handleSort`: the sorted column again flips the direction; another
      column becomes the sort column, ascending. Either way back to page 1. */
  function HandleSort(v: View, field: SortField): View
  {
    if v.sortField == Some(field) then
      v.(sortDirection := if v.sortDirection == Sorting.Asc then Sorting.Desc else Sorting.Asc, currentPage := 1)
    else
      v.(sortField := Some(field), sortDirection := Sorting.Asc, currentPage := 1)
  }

  /** Typing in the search box: the new term, back to page 1. */
  function SetSearchTerm(v: View, term: string): View
  {
    v.(searchTerm := term, currentPage := 1)
  }

  /** Choosing a page size: the new size, back to page 1. */
  function SetPageSize(v: View, pageSize: nat): View
  {
    v.(pageSize := pageSize, currentPage := 1)
  }

  /** Choosing the search column: the page is kept. */
  function SetFilterColumn(v: View, column: string): View
  {
    v.(filterColumn := column)
  }

  /** The Previous button: `Math.max(1, page - 1)`. */
  function PreviousPage(v: View): View
  {
    v.(currentPage := if v.currentPage - 1 > 1 then v.currentPage - 1 else 1)
  }

  /** The Next button: `Math.min(totalPages, page + 1)`. */
  function NextPage(v: View, totalPages: nat): View
  {
    v.(currentPage := if totalPages < v.currentPage + 1 then totalPages else v.currentPage + 1)
  }

  /** The sort column after a click is the clicked one and the page is 1;
      the direction flips on the same column and is ascending on a new one,
      and two clicks on the sorted column restore the direction. */
  lemma HandleSortSpec(v: View, field: SortField)
    ensures HandleSort(v, field).sortField == Some(field)
    ensures HandleSort(v, field).currentPage == 1
    ensures v.sortField == Some(field) ==> HandleSort(v, field).sortDirection != v.sortDirection
    ensures v.sortField != Some(field) ==> HandleSort(v, field).sortDirection == Sorting.Asc
    ensures HandleSort(HandleSort(v, field), field).sortDirection ==
      (if v.sortField == Some(field) then v.sortDirection else Sorting.Desc)
    ensures HandleSort(v, field).(sortField := v.sortField, sortDirection := v.sortDirection, currentPage := v.currentPage) == v
  {
  }

  /** The Previous and Next buttons keep a page inside 1 to the page count
      when there is at least one page; with no rows Next goes to page 0. */
  lemma PageButtonsSpec(v: View, totalPages: nat)
    ensures PreviousPage(v).currentPage >= 1
    ensures v.currentPage >= 1 ==> PreviousPage(v).currentPage == if v.currentPage == 1 then 1 else v.currentPage - 1
    ensures NextPage(v, totalPages).currentPage <= totalPages
    ensures 1 <= v.currentPage <= totalPages ==> 1 <= NextPage(v, totalPages).currentPage <= totalPages
    ensures v.currentPage >= 0 && totalPages == 0 ==> NextPage(v, totalPages).currentPage == 0
  {
  }

  /** The rows a table shows: the rows passing its filter, sorted, then the
      current page. */
  function Shown(passing: seq<Interaction>, v: View): seq<Interaction>
  {
    Page(SortRows(passing, v.sortField, v.sortDirection), v.currentPage, v.pageSize)
  }

  /** A new search term or page size shows the first rows of the sorted
      list, as many as fit on a page; choosing a search column keeps the
      page number, so a page past the new end shows no rows at all. */
  lemma ViewEventsSpec(passing: seq<Interaction>, v: View, term: string, pageSize: nat, column: string)
    requires v.pageSize > 0 && pageSize > 0
    ensures var sorted := SortRows(passing, v.sortField, v.sortDirection);
      Shown(passing, SetSearchTerm(v, term)) == sorted[..Min(v.pageSize, |passing|)]
    ensures var sorted := SortRows(passing, v.sortField, v.sortDirection);
      Shown(passing, SetPageSize(v, pageSize)) == sorted[..Min(pageSize, |passing|)]
    ensures SetFilterColumn(v, column).currentPage == v.currentPage
    ensures v.currentPage > TotalPages(|passing|, v.pageSize) ==> Shown(passing, SetFilterColumn(v, column)) == []
  {
    var sorted := SortRows(passing, v.sortField, v.sortDirection);
    SortRowsSpec(passing, v.sortField, v.sortDirection);
    assert |sorted| == |passing| by {
      assert |multiset(sorted)| == |multiset(passing)|;
    }
    if |sorted| > 0 {
      PageInside(sorted, 1, v.pageSize, 0);
      PageInside(sorted, 1, pageSize, 0);
    }
    if v.currentPage > TotalPages(|passing|, v.pageSize) {
      PagePastEnd(sorted, v.currentPage, v.pageSize);
    }
  }
}
