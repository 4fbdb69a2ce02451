/** The earlier interactions table, kept beside the current one: the search
    box, the column sort and the pages, without checkbox filters or column
    management. */
module LegacyTable {
  import opened Seqs
  import opened Records
  import Engine = TableEngine
  import Table

  /** The rows the earlier table keeps: those passing the search box. */
  function FilterRows(xs: seq<Interaction>, searchTerm: string, filterColumn: string): (r: seq<Interaction>)
    ensures forall x :: x in r <==> x in xs && Engine.SearchPasses(x, searchTerm, filterColumn)
  {
    Filter(xs, (x: Interaction) => Engine.SearchPasses(x, searchTerm, filterColumn))
  }

  /** The search keeps rows in their order, and searching the result again
      changes nothing. */
  lemma FilterRowsIdempotent(xs: seq<Interaction>, searchTerm: string, filterColumn: string)
    ensures IsSubseq(FilterRows(xs, searchTerm, filterColumn), xs)
    ensures FilterRows(FilterRows(xs, searchTerm, filterColumn), searchTerm, filterColumn) == FilterRows(xs, searchTerm, filterColumn)
  {
    var p := (x: Interaction) => Engine.SearchPasses(x, searchTerm, filterColumn);
    FilterIsSubseq(xs, p);
    FilterIdempotent(xs, p);
  }

  /** The rows on the current page. */
  function ShownRows(xs: seq<Interaction>, v: Engine.View): seq<Interaction>
  {
    Engine.Shown(FilterRows(xs, v.searchTerm, v.filterColumn), v)
  }

  /** With no checkbox ticked, the current table shows exactly what the
      earlier one shows for the same search, sort and page. */
  lemma SameWithoutCheckboxes(xs: seq<Interaction>, st: Table.TableState)
    requires forall c :: c in st.filters ==> |st.filters[c]| == 0
    ensures Table.ShownRows(xs, st) == ShownRows(xs, st.view)
    ensures Table.FilterRows(xs, st.filters, st.view.searchTerm, st.view.filterColumn) ==
      FilterRows(xs, st.view.searchTerm, st.view.filterColumn)
  {
    var term := st.view.searchTerm;
    var col := st.view.filterColumn;
    FilterCongruent(xs,
      (x: Interaction) => Table.CheckboxPasses(x, st.filters) && Engine.SearchPasses(x, term, col),
      (x: Interaction) => Engine.SearchPasses(x, term, col));
  }

  /** The current table's rows are always among the earlier table's, in the
      same order: the checkbox filters only take rows away. */
  lemma CheckboxesOnlyNarrow(xs: seq<Interaction>, filters: Table.CheckboxFilters, searchTerm: string, filterColumn: string)
    ensures IsSubseq(Table.FilterRows(xs, filters, searchTerm, filterColumn), FilterRows(xs, searchTerm, filterColumn))
  {
    var p := (x: Interaction) => Engine.SearchPasses(x, searchTerm, filterColumn);
    var q := (x: Interaction) => Table.CheckboxPasses(x, filters);
    var both := (x: Interaction) => Table.CheckboxPasses(x, filters) && Engine.SearchPasses(x, searchTerm, filterColumn);
    FilterOfFilter(xs, p, q, both);
    FilterIsSubseq(Filter(xs, p), q);
  }

  /** Filtering by `p` and then by `q` is filtering by both. */
  lemma {:induction false} FilterOfFilter<T(!new)>(s: seq<T>, p: T -> bool, q: T -> bool, both: T -> bool)
    requires forall x :: both(x) == (q(x) && p(x))
    ensures Filter(Filter(s, p), q) == Filter(s, both)
  {
    if |s| > 0 {
      FilterOfFilter(s[1..], p, q, both);
      FilterAppend(if p(s[0]) then [s[0]] else [], Filter(s[1..], p), q);
    }
  }
}
