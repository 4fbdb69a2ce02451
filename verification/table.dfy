/** The interactions table: checkbox filters per column on top of the shared
    search, sort and pages, a column chooser, and column reordering by drag
    and drop. */
module Table {
  import opened Wrappers
  import opened Seqs
  import opened Text
  import opened Records
  import Sorting
  import Formatting
  import Engine = TableEngine

  /* ---------------------------------------------------- checkbox filters */

  /** The value a checkbox filter looks at; a missing wrap-up and a column
      without checkboxes read as the empty string. */
  function ColumnValue(x: Interaction, column: string): string
  {
    if column == "agent" then x.agent()
    else if column == "queue" then x.queue()
    else if column == "mediaType" then x.mediaType()
    else if column == "direction" then x.direction()
    else if column == "wrapUp" then (if Truthy(x.wrapUp()) then x.wrapUp().value else "")
    else ""
  }

  /** The ticked values per column. */
  type CheckboxFilters = map<string, set<string>>

  /** A row passes when, for every column with at least one ticked value,
      its value in that column is ticked. */
  predicate CheckboxPasses(x: Interaction, filters: CheckboxFilters)
  {
    forall column :: column in filters && |filters[column]| > 0 ==> ColumnValue(x, column) in filters[column]
  }

  /** No column holds an empty set: the filters never keep one. */
  predicate NoEmptySets(filters: CheckboxFilters)
  {
    forall column :: column in filters ==> |filters[column]| > 0
  }

  /** The rows the table keeps: those passing the checkbox filters and the
      search box. */
  function FilterRows(xs: seq<Interaction>, filters: CheckboxFilters, searchTerm: string, filterColumn: string): seq<Interaction>
  {
    Filter(xs, (x: Interaction) => CheckboxPasses(x, filters) && Engine.SearchPasses(x, searchTerm, filterColumn))
  }

  /** With nothing ticked every row passes; with values ticked in a single
      column a row passes exactly when its value there is one of them. */
  lemma CheckboxPassesSpec(x: Interaction, column: string, values: set<string>)
    ensures CheckboxPasses(x, map[])
    ensures CheckboxPasses(x, map[column := values]) <==> |values| == 0 || ColumnValue(x, column) in values
  {
    var m := map[column := values];
    if |values| > 0 && !(ColumnValue(x, column) in values) {
      assert column in m && |m[column]| > 0;
    }
  }

  /** Adding a column's filter narrows by that column and keeps the others:
      the filters combine with AND. */
  lemma CheckboxPassesUpdate(x: Interaction, filters: CheckboxFilters, column: string, values: set<string>)
    requires |values| > 0
    ensures CheckboxPasses(x, filters[column := values]) <==>
      CheckboxPasses(x, filters - {column}) && ColumnValue(x, column) in values
  {
    var m := filters[column := values];
    if CheckboxPasses(x, m) {
      assert column in m;
      forall c | c in filters - {column} && |(filters - {column})[c]| > 0
        ensures ColumnValue(x, c) in (filters - {column})[c]
      {
        assert c in m && m[c] == filters[c];
      }
    }
  }

  /** `handleCheckboxFilter`: tick or untick one value of one column; a
      column left with no ticked value is dropped. */
  function HandleCheckbox(filters: CheckboxFilters, column: string, value: string, checked: bool): CheckboxFilters
  {
    var current := if column in filters then filters[column] else {};
    var next := if checked then current + {value} else current - {value};
    if |next| == 0 then filters - {column} else filters[column := next]
  }

  /** `clearColumnFilter`: drop every ticked value of one column. */
  function ClearColumn(filters: CheckboxFilters, column: string): CheckboxFilters
  {
    filters - {column}
  }

  /** Ticking adds the value and unticking removes it, only the column
      touched changes, and no empty set is ever kept. */
  lemma HandleCheckboxSpec(filters: CheckboxFilters, column: string, value: string, checked: bool)
    requires NoEmptySets(filters)
    ensures NoEmptySets(HandleCheckbox(filters, column, value, checked))
    ensures checked ==> column in HandleCheckbox(filters, column, value, checked)
    ensures checked ==>
      HandleCheckbox(filters, column, value, checked)[column] == (if column in filters then filters[column] else {}) + {value}
    ensures !checked && column in HandleCheckbox(filters, column, value, checked) ==>
      HandleCheckbox(filters, column, value, checked)[column] == filters[column] - {value}
    ensures !checked && column !in HandleCheckbox(filters, column, value, checked) ==>
      column !in filters || filters[column] == {value}
    ensures forall c :: c != column ==>
      (c in HandleCheckbox(filters, column, value, checked) <==> c in filters)
    ensures forall c :: c != column && c in filters ==>
      HandleCheckbox(filters, column, value, checked)[c] == filters[c]
  {
    var current := if column in filters then filters[column] else {};
    if checked {
      assert value in current + {value};
    }
    if !checked && column in filters && |current - {value}| == 0 {
      assert current <= {value};
      assert current == {value} by {
        var y :| y in current;
        assert y == value;
      }
    }
  }

  /** Ticking a value that was not ticked and unticking it again restores
      the filters. */
  lemma CheckThenUncheck(filters: CheckboxFilters, column: string, value: string)
    requires NoEmptySets(filters)
    requires column !in filters || value !in filters[column]
    ensures HandleCheckbox(HandleCheckbox(filters, column, value, true), column, value, false) == filters
  {
    var once := HandleCheckbox(filters, column, value, true);
    var current := if column in filters then filters[column] else {};
    assert once[column] == current + {value};
    assert current + {value} - {value} == current;
    if column !in filters {
      assert |current| == 0;
    }
  }

  /** After clearing a column, a row passes exactly when it passes the
      other columns' filters. */
  lemma ClearColumnSpec(x: Interaction, filters: CheckboxFilters, column: string)
    ensures column !in ClearColumn(filters, column)
    ensures CheckboxPasses(x, ClearColumn(filters, column)) <==>
      forall c :: c in filters && c != column && |filters[c]| > 0 ==> ColumnValue(x, c) in filters[c]
  {
  }

  /* ------------------------------------------------------ column values */

  /** `getUniqueValues`: the checkbox values offered for a column. */
  function ColumnValues(xs: seq<Interaction>, column: string): seq<string>
  {
    Formatting.UniqueValues(xs, (x: Interaction) => ColumnValue(x, column))
  }

  /** Sorted, without repeats, exactly the non-empty values the column takes;
      a column without checkboxes offers none. */
  lemma ColumnValuesSpec(xs: seq<Interaction>, column: string)
    ensures StrictlySorted(ColumnValues(xs, column))
    ensures forall v :: v in ColumnValues(xs, column) <==>
      v != "" && exists i :: 0 <= i < |xs| && ColumnValue(xs[i], column) == v
    ensures column !in {"agent", "queue", "mediaType", "direction", "wrapUp"} ==> ColumnValues(xs, column) == []
  {
    Formatting.UniqueValuesSpec(xs, (x: Interaction) => ColumnValue(x, column));
    var r := ColumnValues(xs, column);
    if column !in {"agent", "queue", "mediaType", "direction", "wrapUp"} && |r| > 0 {
      assert r[0] in r;
    }
  }

  /** The lower-cased search text typed above a column's checkboxes. */
  function ValueSearch(terms: map<string, string>, column: string): string
  {
    if column in terms then Lower(terms[column]) else ""
  }

  /** `getFilteredValues`: the offered values that contain the column's
      search text, ignoring case. */
  function FilteredValues(xs: seq<Interaction>, column: string, terms: map<string, string>): seq<string>
  {
    var all := ColumnValues(xs, column);
    var term := ValueSearch(terms, column);
    if term == "" then all
    else Filter(all, (v: string) => v != "" && Engine.Includes(v, term))
  }

  /** The shown values keep the offered order and are exactly the offered
      values containing the search text; no text shows them all. */
  lemma FilteredValuesSpec(xs: seq<Interaction>, column: string, terms: map<string, string>)
    ensures IsSubseq(FilteredValues(xs, column, terms), ColumnValues(xs, column))
    ensures forall v :: v in FilteredValues(xs, column, terms) <==>
      v in ColumnValues(xs, column) && Contains(Lower(v), ValueSearch(terms, column))
    ensures ValueSearch(terms, column) == "" ==> FilteredValues(xs, column, terms) == ColumnValues(xs, column)
  {
    var all := ColumnValues(xs, column);
    var term := ValueSearch(terms, column);
    ColumnValuesSpec(xs, column);
    if term == "" {
      SubseqRefl(all);
      forall v ensures Contains(Lower(v), "") { ContainsTrivial(Lower(v)); }
    } else {
      FilterIsSubseq(all, (v: string) => v != "" && Engine.Includes(v, term));
    }
  }

  lemma {:induction false} SubseqRefl<T>(s: seq<T>)
    ensures IsSubseq(s, s)
  {
    if |s| > 0 {
      SubseqRefl(s[1..]);
    }
  }

  /* ------------------------------------------------------------ columns */

  /** A column of the table: its key, its heading, and the field it sorts by
      when it is sortable. */
  datatype ColumnDef = ColumnDef(key: string, heading: string, sortField: Option<Engine.SortField>)

  function KeyOf(c: ColumnDef): string { c.key }

  /** The keys of the thirteen columns in their starting order, with their
      headings and the fields the sortable ones sort by. */
  const DefaultKeys: seq<string> := [
    "mediaType", "agent", "customer", "startTime", "endTime", "duration", "direction",
    "ani", "dnis", "queue", "wrapUp", "flow", "conversationId"]
  const DefaultHeadings: seq<string> := [
    "Media Type", "Agent", "Customer", "Date", "End Date", "Duration", "Direction",
    "ANI", "DNIS", "Queue", "Wrap-up", "Flow", "Conversation ID"]
  const DefaultSortFields: seq<Option<Engine.SortField>> := [
    Some(Engine.MediaTypeField), Some(Engine.AgentField), Some(Engine.CustomerField),
    Some(Engine.StartTimeField), Some(Engine.EndTimeField), Some(Engine.DurationField),
    Some(Engine.DirectionField), None, None, Some(Engine.QueueField), Some(Engine.WrapUpField),
    None, None]

  /** The thirteen columns in their starting order. */
  const DefaultColumns: seq<ColumnDef> :=
    seq(13, i requires 0 <= i < 13 => ColumnDef(DefaultKeys[i], DefaultHeadings[i], DefaultSortFields[i]))

  /** The columns shown at first. */
  const DefaultVisible: set<string> :=
    {"mediaType", "agent", "customer", "startTime", "endTime", "duration", "direction", "queue"}

  function Shown(visible: set<string>): ColumnDef -> bool
  {
    (c: ColumnDef) => c.key in visible
  }

  function Hidden(visible: set<string>): ColumnDef -> bool
  {
    (c: ColumnDef) => c.key !in visible
  }

  /** `visibleColumnsList`: the shown columns in column order. */
  function VisibleList(columns: seq<ColumnDef>, visible: set<string>): seq<ColumnDef>
  {
    Filter(columns, Shown(visible))
  }

  /** The hidden columns in column order. */
  function HiddenList(columns: seq<ColumnDef>, visible: set<string>): seq<ColumnDef>
  {
    Filter(columns, Hidden(visible))
  }

  /** The starting columns have distinct keys, and the table first shows
      the first seven and the queue column, hiding ANI, DNIS, wrap-up, flow
      and the conversation id. */
  lemma DefaultColumnsSpec()
    ensures UniqueBy(DefaultColumns, KeyOf)
    ensures forall i :: 0 <= i < |DefaultColumns| ==> (DefaultColumns[i].key in DefaultVisible <==> i < 7 || i == 9)
  {
    DefaultKeysDistinct();
    DefaultVisibleKeys();
  }

  lemma DefaultKeysDistinct()
    ensures NoDups(DefaultKeys)
  {
  }

  lemma DefaultVisibleKeys()
    ensures forall i :: 0 <= i < |DefaultKeys| ==> (DefaultKeys[i] in DefaultVisible <==> i < 7 || i == 9)
  {
  }

  /** `toggleColumnVisibility`. */
  function ToggleVisible(visible: set<string>, key: string): set<string>
  {
    if key in visible then visible - {key} else visible + {key}
  }

  /** A toggle flips one column's visibility, leaves the rest, and undoes
      itself. */
  lemma ToggleVisibleSpec(visible: set<string>, key: string)
    ensures key in ToggleVisible(visible, key) <==> key !in visible
    ensures forall k :: k != key ==> (k in ToggleVisible(visible, key) <==> k in visible)
    ensures ToggleVisible(ToggleVisible(visible, key), key) == visible
  {
  }

  /* -------------------------------------------------------- drag & drop */

  /** `splice(from, 1)` then `splice(to, 0, item)`: the element at `from`
      taken out and put back at `to`. */
  function Move<T>(s: seq<T>, from: nat, to: nat): seq<T>
    requires from < |s| && to < |s|
  {
    var rest := s[..from] + s[from + 1..];
    rest[..to] + [s[from]] + rest[to..]
  }

  /** Moving rearranges: same elements, the moved one at its target, and a
      move onto itself changes nothing. */
  lemma MoveSpec<T>(s: seq<T>, from: nat, to: nat)
    requires from < |s| && to < |s|
    ensures multiset(Move(s, from, to)) == multiset(s)
    ensures |Move(s, from, to)| == |s|
    ensures Move(s, from, to)[to] == s[from]
    ensures Move(s, from, from) == s
  {
    var rest := s[..from] + s[from + 1..];
    assert s == s[..from] + [s[from]] + s[from + 1..];
    assert rest == rest[..to] + rest[to..];
    assert rest[..from] == s[..from] && rest[from..] == s[from + 1..];
    calc {
      multiset(Move(s, from, to));
      multiset(rest[..to]) + multiset{s[from]} + multiset(rest[to..]);
      multiset(rest) + multiset{s[from]};
      multiset(s[..from]) + multiset(s[from + 1..]) + multiset{s[from]};
      multiset(s);
    }
  }

  /** The index a key gets in the reordered shown columns, read from a map
      built over them (a later entry for a key wins), 0 when absent. */
  function Position(moved: seq<ColumnDef>, key: string): (p: nat)
    ensures |moved| > 0 ==> p < |moved|
  {
    if |moved| == 0 then 0
    else if moved[|moved| - 1].key == key then |moved| - 1
    else Position(moved[..|moved| - 1], key)
  }

  /** The comparator of the column sort as a key: shown columns by their new
      index, every hidden column after them and tied with the others. */
  function DropKey(visible: set<string>, moved: seq<ColumnDef>): ColumnDef -> Sorting.SortKey
  {
    (c: ColumnDef) => if c.key in visible then Sorting.Num(Position(moved, c.key)) else Sorting.Num(|moved|)
  }

  /** `handleDrop`: with a column being dragged onto another shown column,
      the shown columns are reordered and the whole column list is stably
      sorted to follow them; otherwise nothing changes. */
  function HandleDrop(columns: seq<ColumnDef>, visible: set<string>, dragged: Option<nat>, target: nat): seq<ColumnDef>
    requires dragged.Some? ==> dragged.value < |VisibleList(columns, visible)| && target < |VisibleList(columns, visible)|
  {
    if dragged.None? || dragged.value == target then columns
    else
      var moved := Move(VisibleList(columns, visible), dragged.value, target);
      Sorting.SortBy(columns, DropKey(visible, moved), Sorting.Asc)
  }

  /** With distinct keys, the index of an element's key is its index. */
  lemma {:induction false} PositionOfUnique(moved: seq<ColumnDef>, i: nat)
    requires UniqueBy(moved, KeyOf) && i < |moved|
    ensures Position(moved, moved[i].key) == i
  {
    if i < |moved| - 1 {
      var init := moved[..|moved| - 1];
      assert init[i] == moved[i];
      PositionOfUnique(init, i);
    }
  }

  lemma {:induction false} FilterUniqueBy<T(!new), K>(s: seq<T>, p: T -> bool, f: T -> K)
    requires UniqueBy(s, f)
    ensures UniqueBy(Filter(s, p), f)
  {
    if |s| > 0 {
      FilterUniqueBy(s[1..], p, f);
      var rest := Filter(s[1..], p);
      if p(s[0]) {
        forall j | 0 < j < |Filter(s, p)| ensures f(s[0]) != f(Filter(s, p)[j]) {
          assert Filter(s, p)[j] == rest[j - 1];
          assert rest[j - 1] in s[1..];
        }
      }
    }
  }

  /** The facts about the reordered shown columns the drop proof uses. */
  lemma MovedFacts(columns: seq<ColumnDef>, visible: set<string>, from: nat, to: nat)
    requires UniqueBy(columns, KeyOf)
    requires from < |VisibleList(columns, visible)| && to < |VisibleList(columns, visible)|
    ensures UniqueBy(Move(VisibleList(columns, visible), from, to), KeyOf)
    ensures forall i :: 0 <= i < |Move(VisibleList(columns, visible), from, to)| ==>
      var moved := Move(VisibleList(columns, visible), from, to);
      moved[i] in columns && moved[i].key in visible &&
      DropKey(visible, moved)(moved[i]) == Sorting.Num(i)
  {
    var vis := VisibleList(columns, visible);
    var moved := Move(vis, from, to);
    MoveSpec(vis, from, to);
    FilterUniqueBy(columns, Shown(visible), KeyOf);
    UniqueByPermutation(vis, moved, KeyOf);
    forall i | 0 <= i < |moved|
      ensures moved[i] in columns && moved[i].key in visible && DropKey(visible, moved)(moved[i]) == Sorting.Num(i)
    {
      assert moved[i] in multiset(vis);
      PositionOfUnique(moved, i);
    }
  }

  /** The columns after a drop are in the order of their drop keys. */
  lemma DropTargetSorted(columns: seq<ColumnDef>, visible: set<string>, from: nat, to: nat)
    requires UniqueBy(columns, KeyOf)
    requires from < |VisibleList(columns, visible)| && to < |VisibleList(columns, visible)|
    ensures var moved := Move(VisibleList(columns, visible), from, to);
      Sorting.SortedBy(moved + HiddenList(columns, visible), DropKey(visible, moved), Sorting.Asc)
  {
    var moved := Move(VisibleList(columns, visible), from, to);
    var hidden := HiddenList(columns, visible);
    var key := DropKey(visible, moved);
    var r := moved + hidden;
    MovedFacts(columns, visible, from, to);
    forall i, j | 0 <= i < j < |r| ensures !Sorting.Precedes(key(r[j]), key(r[i]), Sorting.Asc) {
      if j < |moved| {
        assert key(r[i]) == Sorting.Num(i) && key(r[j]) == Sorting.Num(j);
      } else {
        assert r[j] == hidden[j - |moved|];
        assert key(r[j]) == Sorting.Num(|moved|);
        if i < |moved| {
          assert key(r[i]) == Sorting.Num(i);
        } else {
          assert r[i] == hidden[i - |moved|];
        }
      }
    }
  }

  /** Exactly one element of `s` has key `k`. */
  lemma {:induction false} SelectSingle<T, K>(s: seq<T>, key: T -> K, k: K, i: nat)
    requires i < |s| && key(s[i]) == k
    requires forall j :: 0 <= j < |s| && j != i ==> key(s[j]) != k
    ensures Select(s, key, k) == [s[i]]
  {
    if i == 0 {
      NoneSelected(s[1..], key, k);
    } else {
      SelectSingle(s[1..], key, k, i - 1);
    }
  }

  lemma {:induction false} NoneSelected<T, K>(s: seq<T>, key: T -> K, k: K)
    requires forall j :: 0 <= j < |s| ==> key(s[j]) != k
    ensures Select(s, key, k) == []
  {
    if |s| > 0 {
      NoneSelected(s[1..], key, k);
    }
  }

  /** Selecting by a key value is filtering by it. */
  lemma {:induction false} SelectAsFilter<T(!new), K>(s: seq<T>, key: T -> K, k: K, p: T -> bool)
    requires forall j :: 0 <= j < |s| ==> (key(s[j]) == k <==> p(s[j]))
    ensures Select(s, key, k) == Filter(s, p)
  {
    if |s| > 0 {
      SelectAsFilter(s[1..], key, k, p);
    }
  }

  /** Every column has the same drop key on both sides: the shown ones at
      their new index, the hidden ones after them. */
  lemma DropSelect(columns: seq<ColumnDef>, visible: set<string>, from: nat, to: nat, k: Sorting.SortKey)
    requires UniqueBy(columns, KeyOf)
    requires from < |VisibleList(columns, visible)| && to < |VisibleList(columns, visible)|
    ensures var moved := Move(VisibleList(columns, visible), from, to);
      Select(columns, DropKey(visible, moved), k) == Select(moved + HiddenList(columns, visible), DropKey(visible, moved), k)
  {
    var moved := Move(VisibleList(columns, visible), from, to);
    var hidden := HiddenList(columns, visible);
    var key := DropKey(visible, moved);
    MovedFacts(columns, visible, from, to);
    SelectAppend(moved, hidden, key, k);
    if k.Num? && 0 <= k.n < |moved| {
      DropSelectShown(columns, visible, from, to, k.n);
    } else if k == Sorting.Num(|moved|) {
      DropSelectHidden(columns, visible, from, to);
    } else {
      NoneSelected(moved, key, k);
      NoneSelected(hidden, key, k);
      NoneSelected(columns, key, k);
    }
  }

  lemma DropSelectShown(columns: seq<ColumnDef>, visible: set<string>, from: nat, to: nat, i: nat)
    requires UniqueBy(columns, KeyOf)
    requires from < |VisibleList(columns, visible)| && to < |VisibleList(columns, visible)|
    requires i < |VisibleList(columns, visible)|
    ensures var moved := Move(VisibleList(columns, visible), from, to);
      Select(columns, DropKey(visible, moved), Sorting.Num(i)) == [moved[i]]
    ensures var moved := Move(VisibleList(columns, visible), from, to);
      Select(moved + HiddenList(columns, visible), DropKey(visible, moved), Sorting.Num(i)) == [moved[i]]
  {
    var vis := VisibleList(columns, visible);
    var moved := Move(vis, from, to);
    var hidden := HiddenList(columns, visible);
    var key := DropKey(visible, moved);
    var k := Sorting.Num(i);
    MovedFacts(columns, visible, from, to);
    MoveSpec(vis, from, to);
    SelectAppend(moved, hidden, key, k);
    SelectSingle(moved, key, k, i);
    NoneSelected(hidden, key, k);
    var p :| 0 <= p < |columns| && columns[p] == moved[i];
    OnlyOneAt(columns, visible, from, to, i, p);
    SelectSingle(columns, key, k, p);
  }

  /** Only the column at `p` gets the drop key of new index `i`. */
  lemma OnlyOneAt(columns: seq<ColumnDef>, visible: set<string>, from: nat, to: nat, i: nat, p: nat)
    requires UniqueBy(columns, KeyOf)
    requires from < |VisibleList(columns, visible)| && to < |VisibleList(columns, visible)|
    requires i < |VisibleList(columns, visible)|
    requires p < |columns| && columns[p] == Move(VisibleList(columns, visible), from, to)[i]
    ensures var moved := Move(VisibleList(columns, visible), from, to);
      forall q :: 0 <= q < |columns| && q != p ==> DropKey(visible, moved)(columns[q]) != Sorting.Num(i)
  {
    var vis := VisibleList(columns, visible);
    var moved := Move(vis, from, to);
    var key := DropKey(visible, moved);
    MovedFacts(columns, visible, from, to);
    assert |moved| == |vis| by {
      MoveSpec(vis, from, to);
    }
    forall q | 0 <= q < |columns| && q != p ensures key(columns[q]) != Sorting.Num(i) {
      if columns[q].key in visible {
        assert columns[q] in moved by {
          assert columns[q] in vis;
          MoveSpec(vis, from, to);
          assert columns[q] in multiset(moved);
        }
        var j :| 0 <= j < |moved| && moved[j] == columns[q];
        assert j != i by {
          assert KeyOf(columns[q]) != KeyOf(columns[p]);
        }
      }
    }
  }

  lemma DropSelectHidden(columns: seq<ColumnDef>, visible: set<string>, from: nat, to: nat)
    requires UniqueBy(columns, KeyOf)
    requires from < |VisibleList(columns, visible)| && to < |VisibleList(columns, visible)|
    ensures var moved := Move(VisibleList(columns, visible), from, to);
      Select(columns, DropKey(visible, moved), Sorting.Num(|moved|)) == HiddenList(columns, visible)
    ensures var moved := Move(VisibleList(columns, visible), from, to);
      Select(moved + HiddenList(columns, visible), DropKey(visible, moved), Sorting.Num(|moved|)) == HiddenList(columns, visible)
  {
    var moved := Move(VisibleList(columns, visible), from, to);
    var hidden := HiddenList(columns, visible);
    var key := DropKey(visible, moved);
    var k := Sorting.Num(|moved|);
    var p := Hidden(visible);
    MovedFacts(columns, visible, from, to);
    SelectAppend(moved, hidden, key, k);
    NoneSelected(moved, key, k);
    SelectAsFilter(hidden, key, k, p);
    FilterIdempotent(columns, p);
    SelectAsFilter(columns, key, k, p);
  }

  /** A drop puts the shown columns in their new order, with the dragged
      column at the target index, and every hidden column after them in its
      old order; the column set is unchanged and keys stay distinct. */
  lemma HandleDropSpec(columns: seq<ColumnDef>, visible: set<string>, from: nat, to: nat)
    requires UniqueBy(columns, KeyOf)
    requires from < |VisibleList(columns, visible)| && to < |VisibleList(columns, visible)| && from != to
    ensures HandleDrop(columns, visible, Some(from), to) ==
      Move(VisibleList(columns, visible), from, to) + HiddenList(columns, visible)
    ensures HandleDrop(columns, visible, Some(from), to)[to] == VisibleList(columns, visible)[from]
    ensures multiset(HandleDrop(columns, visible, Some(from), to)) == multiset(columns)
    ensures UniqueBy(HandleDrop(columns, visible, Some(from), to), KeyOf)
  {
    var vis := VisibleList(columns, visible);
    var moved := Move(vis, from, to);
    var key := DropKey(visible, moved);
    var r := HandleDrop(columns, visible, Some(from), to);
    Sorting.SortBySorted(columns, key, Sorting.Asc);
    DropTargetSorted(columns, visible, from, to);
    forall k ensures Select(r, key, k) == Select(moved + HiddenList(columns, visible), key, k) {
      Sorting.SortByStable(columns, key, Sorting.Asc, k);
      DropSelect(columns, visible, from, to, k);
    }
    Sorting.SortedStableUnique(r, moved + HiddenList(columns, visible), key, Sorting.Asc);
    MoveSpec(vis, from, to);
    UniqueByPermutation(columns, r, KeyOf);
  }

  /** After a drop the shown columns read in exactly the dragged order. */
  lemma HandleDropVisible(columns: seq<ColumnDef>, visible: set<string>, from: nat, to: nat)
    requires UniqueBy(columns, KeyOf)
    requires from < |VisibleList(columns, visible)| && to < |VisibleList(columns, visible)|
    ensures VisibleList(HandleDrop(columns, visible, Some(from), to), visible) ==
      Move(VisibleList(columns, visible), from, to)
  {
    if from == to {
      MoveSpec(VisibleList(columns, visible), from, to);
    } else {
      HandleDropSpec(columns, visible, from, to);
      ShownOfMoved(columns, visible, from, to);
    }
  }

  lemma ShownOfMoved(columns: seq<ColumnDef>, visible: set<string>, from: nat, to: nat)
    requires UniqueBy(columns, KeyOf)
    requires from < |VisibleList(columns, visible)| && to < |VisibleList(columns, visible)|
    ensures var moved := Move(VisibleList(columns, visible), from, to);
      Filter(moved + HiddenList(columns, visible), Shown(visible)) == moved
  {
    var moved := Move(VisibleList(columns, visible), from, to);
    var hidden := HiddenList(columns, visible);
    var p := Shown(visible);
    MovedFacts(columns, visible, from, to);
    FilterAppend(moved, hidden, p);
    FilterAll(moved, p);
    FilterNone(hidden, p);
    assert Filter(moved + hidden, p) == moved + [];
  }

  lemma FilterNone<T(!new)>(s: seq<T>, p: T -> bool)
    requires forall i :: 0 <= i < |s| ==> !p(s[i])
    ensures Filter(s, p) == []
  {
  }

  /** Dropping nothing, or a column onto its own place, keeps the columns. */
  lemma HandleDropNoop(columns: seq<ColumnDef>, visible: set<string>, dragged: Option<nat>, target: nat)
    requires dragged.Some? ==> dragged.value < |VisibleList(columns, visible)| && target < |VisibleList(columns, visible)|
    requires dragged.None? || dragged.value == target
    ensures HandleDrop(columns, visible, dragged, target) == columns
  {
  }

  /* -------------------------------------------------------------- state */

  /** The table's state: the shared search/sort/page state, the ticked
      values, the shown columns and their order, and the per-column search
      texts of the checkbox lists. */
  datatype TableState = TableState(
    view: Engine.View,
    filters: CheckboxFilters,
    visible: set<string>,
    columns: seq<ColumnDef>,
    valueSearch: map<string, string>)

  const InitialState := TableState(Engine.InitialView, map[], DefaultVisible, DefaultColumns,
    map["agent" := "", "queue" := "", "mediaType" := "", "direction" := ""])

  /** Ticking or unticking a checkbox updates the filters and goes back to
      page 1. */
  function CheckboxEvent(st: TableState, column: string, value: string, checked: bool): TableState
  {
    st.(filters := HandleCheckbox(st.filters, column, value, checked), view := st.view.(currentPage := 1))
  }

  /** Clearing a column's checkboxes goes back to page 1. */
  function ClearEvent(st: TableState, column: string): TableState
  {
    st.(filters := ClearColumn(st.filters, column), view := st.view.(currentPage := 1))
  }

  /** The rows on the current page. */
  function ShownRows(xs: seq<Interaction>, st: TableState): seq<Interaction>
  {
    Engine.Shown(FilterRows(xs, st.filters, st.view.searchTerm, st.view.filterColumn), st.view)
  }

  /** The state the table keeps: distinct column keys, no empty checkbox
      set. */
  ghost predicate Valid(st: TableState)
  {
    UniqueBy(st.columns, KeyOf) && NoEmptySets(st.filters)
  }

  /** The starting state is valid and the filter events keep it valid, each
      returning to page 1; so does a drop. */
  lemma EventsKeepValid(st: TableState, column: string, value: string, checked: bool)
    requires Valid(st)
    ensures Valid(InitialState)
    ensures Valid(CheckboxEvent(st, column, value, checked)) && CheckboxEvent(st, column, value, checked).view.currentPage == 1
    ensures Valid(ClearEvent(st, column)) && ClearEvent(st, column).view.currentPage == 1
  {
    DefaultColumnsSpec();
    HandleCheckboxSpec(st.filters, column, value, checked);
  }

  lemma DropKeepsValid(st: TableState, from: nat, to: nat)
    requires Valid(st)
    requires from < |VisibleList(st.columns, st.visible)| && to < |VisibleList(st.columns, st.visible)|
    ensures Valid(st.(columns := HandleDrop(st.columns, st.visible, Some(from), to)))
  {
    if from != to {
      HandleDropSpec(st.columns, st.visible, from, to);
    }
  }
}
