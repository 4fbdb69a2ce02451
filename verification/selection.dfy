/** Selection bookkeeping of the uploaded-files panel and of the report
    history page: check boxes, select all, delete one, delete the selected. */
module Selection {
  import opened Wrappers
  import opened Seqs
  import opened Text
  import opened Records
  import Dashboard

  /* ------------------------------------------------- shared bookkeeping */

  /** Checking a box appends its id (without looking for it first);
      unchecking removes every copy of it. */
  function Check(selected: seq<string>, id: string, checked: bool): (r: seq<string>)
  {
    if checked then selected + [id] else RemoveAll(selected, id)
  }

  /** Checking appends exactly the id; unchecking removes it and keeps every
      other id as often as before; checking a fresh id and unchecking it
      restores the selection. */
  lemma CheckSpec(selected: seq<string>, id: string)
    ensures Check(selected, id, true) == selected + [id]
    ensures id !in Check(selected, id, false)
    ensures forall y :: y != id ==> Count(Check(selected, id, false), y) == Count(selected, y)
    ensures IsSubseq(Check(selected, id, false), selected)
    ensures id !in selected ==> Check(Check(selected, id, true), id, false) == selected
  {
    if id !in selected {
      RemoveAllAbsent(selected, id);
      RemoveAllAppend(selected, [id], id);
      assert RemoveAll([id], id) == [];
    }
  }

  lemma {:induction false} RemoveAllAbsent<T(!new)>(s: seq<T>, x: T)
    requires x !in s
    ensures RemoveAll(s, x) == s
  {
    if |s| > 0 {
      RemoveAllAbsent(s[1..], x);
    }
  }

  lemma {:induction false} RemoveAllAppend<T(!new)>(a: seq<T>, b: seq<T>, x: T)
    ensures RemoveAll(a + b, x) == RemoveAll(a, x) + RemoveAll(b, x)
  {
    if |a| == 0 {
      assert a + b == b;
    } else {
      assert (a + b)[1..] == a[1..] + b;
      RemoveAllAppend(a[1..], b, x);
    }
  }

  /** A selection that lists each id once and only ids of `ids`. */
  ghost predicate SelectionOf(selected: seq<string>, ids: seq<string>)
  {
    NoDups(selected) && forall i :: 0 <= i < |selected| ==> selected[i] in ids
  }

  /** Under that bookkeeping, as many selected as there are ids means every
      id is selected. */
  lemma FullCountIsAll(selected: seq<string>, ids: seq<string>)
    requires SelectionOf(selected, ids) && NoDups(ids)
    ensures |selected| == |ids| <==> forall i :: 0 <= i < |ids| ==> ids[i] in selected
    ensures |selected| <= |ids|
  {
    NoDupsCard(selected);
    NoDupsCard(ids);
    var s := set x | x in selected;
    var t := set x | x in ids;
    assert s <= t;
    SubsetCard(s, t);
    if |selected| == |ids| {
      assert s == t;
      forall i | 0 <= i < |ids| ensures ids[i] in selected {
        assert ids[i] in t;
      }
    }
    if forall i :: 0 <= i < |ids| ==> ids[i] in selected {
      assert t <= s;
      assert s == t;
    }
  }

  lemma SubsetCard<T>(s: set<T>, t: set<T>)
    requires s <= t
    ensures |s| <= |t|
    ensures s != t ==> |s| < |t|
    decreases t
  {
    if s != t {
      var x :| x in t && x !in s;
      SubsetCard(s, t - {x});
    }
  }

  /* ------------------------------------------------------- files panel */

  function FileId(f: Dashboard.UploadedFile): string { f.id }

  function FileIds(files: seq<Dashboard.UploadedFile>): seq<string>
  {
    Map(files, FileId)
  }

  /** `handleSelectAll` of the files panel. */
  function SelectAllFiles(files: seq<Dashboard.UploadedFile>, checked: bool): (r: seq<string>)
  {
    if checked then FileIds(files) else []
  }

  /** `isAllSelected`: there are files and as many ids are selected as
      there are files. */
  predicate IsAllSelected(files: seq<Dashboard.UploadedFile>, selected: seq<string>)
  {
    |files| > 0 && |selected| == |files|
  }

  /** `isIndeterminate`: some ids are selected, fewer than there are files. */
  predicate IsIndeterminate(files: seq<Dashboard.UploadedFile>, selected: seq<string>)
  {
    |selected| > 0 && |selected| < |files|
  }

  /** The header box is never both checked and indeterminate; selecting all
      lists every file id in file order, and unselecting all clears. */
  lemma SelectAllFilesSpec(files: seq<Dashboard.UploadedFile>, selected: seq<string>)
    ensures !(IsAllSelected(files, selected) && IsIndeterminate(files, selected))
    ensures |SelectAllFiles(files, true)| == |files|
    ensures forall i :: 0 <= i < |files| ==> SelectAllFiles(files, true)[i] == files[i].id
    ensures SelectAllFiles(files, false) == []
    ensures |files| > 0 ==> IsAllSelected(files, SelectAllFiles(files, true))
    ensures !IsAllSelected(files, SelectAllFiles(files, false)) && !IsIndeterminate(files, SelectAllFiles(files, false))
  {
  }

  /** With distinct file ids and a selection of distinct file ids, the
      header box is checked exactly when every file is selected. */
  lemma IsAllSelectedMeaning(files: seq<Dashboard.UploadedFile>, selected: seq<string>)
    requires NoDups(FileIds(files)) && SelectionOf(selected, FileIds(files))
    ensures IsAllSelected(files, selected) <==> |files| > 0 && forall i :: 0 <= i < |files| ==> files[i].id in selected
  {
    FullCountIsAll(selected, FileIds(files));
  }

  /** `handleConfirmBulkDelete`: the selected files go and the selection is
      cleared. */
  function ConfirmBulkDelete(files: seq<Dashboard.UploadedFile>, selected: seq<string>): (seq<Dashboard.UploadedFile>, seq<string>)
  {
    (Dashboard.DeleteMultiple(files, selected), [])
  }

  /** `handleConfirmDelete` as written: with a target set, that file goes
      and the target is reset; the selection is left as it was. Without a
      target nothing happens. */
  function ConfirmDelete(files: seq<Dashboard.UploadedFile>, selected: seq<string>, target: Option<string>)
    : (seq<Dashboard.UploadedFile>, seq<string>, Option<string>)
  {
    if Truthy(target) then (Dashboard.DeleteFile(files, target.value), selected, None)
    else (files, selected, target)
  }

  /** The same with the deleted id also dropped from the selection, as the
      report page does on a single delete. */
  function ConfirmDeleteFixed(files: seq<Dashboard.UploadedFile>, selected: seq<string>, target: Option<string>)
    : (seq<Dashboard.UploadedFile>, seq<string>, Option<string>)
  {
    if Truthy(target) then (Dashboard.DeleteFile(files, target.value), RemoveAll(selected, target.value), None)
    else (files, selected, target)
  }

  /** Bulk delete removes exactly the selected files and leaves nothing
      selected; single delete acts only with a target and then resets it. */
  lemma ConfirmSpec(files: seq<Dashboard.UploadedFile>, selected: seq<string>, target: Option<string>)
    ensures forall f :: f in ConfirmBulkDelete(files, selected).0 <==> f in files && f.id !in selected
    ensures ConfirmBulkDelete(files, selected).1 == []
    ensures !Truthy(target) ==> ConfirmDelete(files, selected, target) == (files, selected, target)
    ensures Truthy(target) ==> ConfirmDelete(files, selected, target).2 == None
    ensures Truthy(target) ==> forall f :: f in ConfirmDelete(files, selected, target).0 <==> f in files && f.id != target.value
  {
    Dashboard.DeleteMultipleSpec(files, selected);
    if Truthy(target) {
      Dashboard.DeleteFileSpec(files, target.value);
    }
  }

  function File(id: string): Dashboard.UploadedFile
  {
    Dashboard.UploadedFile(id, id, 0, 0, true, "")
  }

  /** As written, deleting one selected file leaves its id selected: with
      files a, b, c and a, b selected, deleting a shows the header box
      checked although c is not selected. */
  lemma StaleSelectionShowsAllSelected()
    ensures var after := ConfirmDelete([File("a"), File("b"), File("c")], ["a", "b"], Some("a"));
      IsAllSelected(after.0, after.1) && after.0[1].id !in after.1
  {
    var files := [File("a"), File("b"), File("c")];
    var after := ConfirmDelete(files, ["a", "b"], Some("a"));
    Dashboard.DeleteFileSpec(files, "a");
    assert Dashboard.DeleteFile(files, "a") == [File("b"), File("c")] by {
      assert files[1..] == [File("b"), File("c")];
      assert files[2..] == [File("c")];
    }
  }

  /** With the fix the selection stays a selection of the remaining files,
      so the header box again means that every file is selected. */
  lemma ConfirmDeleteFixedKeepsSelection(files: seq<Dashboard.UploadedFile>, selected: seq<string>, target: Option<string>)
    requires NoDups(FileIds(files)) && SelectionOf(selected, FileIds(files))
    ensures var after := ConfirmDeleteFixed(files, selected, target);
      NoDups(FileIds(after.0)) && SelectionOf(after.1, FileIds(after.0))
    ensures var after := ConfirmDeleteFixed(files, selected, target);
      IsAllSelected(after.0, after.1) <==> |after.0| > 0 && forall i :: 0 <= i < |after.0| ==> after.0[i].id in after.1
  {
    var after := ConfirmDeleteFixed(files, selected, target);
    if Truthy(target) {
      var id := target.value;
      Dashboard.DeleteFileSpec(files, id);
      FilterIsSubseq(files, Dashboard.NotId(id));
      SubseqIdsDistinct(after.0, files);
      RemoveAllNoDups(selected, id);
      forall i | 0 <= i < |after.1| ensures after.1[i] in FileIds(after.0) {
        var y := after.1[i];
        assert y in selected && y != id;
        var j :| 0 <= j < |selected| && selected[j] == y;
        assert y in FileIds(files);
        var k :| 0 <= k < |files| && FileIds(files)[k] == y;
        assert files[k] in after.0;
        var m :| 0 <= m < |after.0| && after.0[m] == files[k];
        assert FileIds(after.0)[m] == y;
      }
    }
    IsAllSelectedMeaning(after.0, after.1);
  }

  lemma {:induction false} RemoveAllNoDups<T(!new)>(s: seq<T>, x: T)
    requires NoDups(s)
    ensures NoDups(RemoveAll(s, x))
  {
    if |s| > 0 {
      RemoveAllNoDups(s[1..], x);
      if s[0] != x {
        assert s[0] !in s[1..];
      }
    }
  }

  /** A subsequence of files with distinct ids has distinct ids. */
  lemma {:induction false} SubseqIdsDistinct(a: seq<Dashboard.UploadedFile>, b: seq<Dashboard.UploadedFile>)
    requires IsSubseq(a, b) && NoDups(FileIds(b))
    ensures NoDups(FileIds(a))
  {
    if |a| > 0 && |b| > 0 {
      assert FileIds(b)[1..] == FileIds(b[1..]);
      if a[0] == b[0] {
        SubseqIdsDistinct(a[1..], b[1..]);
        forall j | 0 < j < |a| ensures a[0].id != a[j].id {
          SubseqMember(a[1..], b[1..], a[j]);
          var k :| 0 <= k < |b[1..]| && b[1..][k] == a[j];
          assert FileIds(b)[0] != FileIds(b)[k + 1];
        }
        assert FileIds(a)[1..] == FileIds(a[1..]);
      } else {
        SubseqIdsDistinct(a, b[1..]);
      }
    }
  }

  lemma {:induction false} SubseqMember<T>(a: seq<T>, b: seq<T>, x: T)
    requires IsSubseq(a, b) && x in a
    ensures x in b
  {
    if a[0] == b[0] {
      if x != a[0] {
        SubseqMember(a[1..], b[1..], x);
      }
    } else {
      SubseqMember(a, b[1..], x);
    }
  }

  /* ---------------------------------------------------- report history */

  datatype ReportKind = Csv | Pdf

  datatype Report = Report(
    id: string,
    name: string,
    kind: ReportKind,
    createdAt: Instant,
    recordCount: int,
    filters: string,
    size: string)

  function ReportId(r: Report): string { r.id }

  /** The search test of a report: the term, lower-cased, in its lower-cased
      name or filter description. */
  predicate ReportMatches(r: Report, term: string)
  {
    Contains(Lower(r.name), Lower(term)) || Contains(Lower(r.filters), Lower(term))
  }

  /** `filteredReports`. */
  function FilteredReports(reports: seq<Report>, term: string): seq<Report>
  {
    Filter(reports, (r: Report) => ReportMatches(r, term))
  }

  /** The matching reports in their order; an empty term keeps them all. */
  lemma FilteredReportsSpec(reports: seq<Report>, term: string)
    ensures IsSubseq(FilteredReports(reports, term), reports)
    ensures forall r :: r in FilteredReports(reports, term) <==> r in reports && ReportMatches(r, term)
    ensures term == "" ==> FilteredReports(reports, term) == reports
  {
    FilterIsSubseq(reports, (r: Report) => ReportMatches(r, term));
    if term == "" {
      forall r: Report ensures ReportMatches(r, term) {
        ContainsTrivial(Lower(r.name));
      }
      FilterAll(reports, (r: Report) => ReportMatches(r, term));
    }
  }

  /** `handleSelectAll` as written: when as many reports are selected as
      are listed, clear; otherwise select every listed report. */
  function SelectAllReports(selected: seq<string>, listed: seq<Report>): seq<string>
  {
    if |selected| == |listed| then [] else Map(listed, ReportId)
  }

  /** As written, a selection made before a search counts against the
      listed reports: with report 1 selected and only report 2 listed,
      "Select All" clears the selection instead of selecting report 2. */
  lemma SelectAllReportsIgnoresListed()
    ensures var listed := [Report("2", "Agent Performance Export", Csv, 0, 0, "", "")];
      SelectAllReports(["1"], listed) == [] && listed[0].id !in ["1"]
  {
  }

  /** Every listed report is selected. */
  predicate AllListedSelected(selected: seq<string>, listed: seq<Report>)
  {
    forall i :: 0 <= i < |listed| ==> listed[i].id in selected
  }

  /** The intended toggle: clear when every listed report is selected,
      otherwise select every listed report. */
  function SelectAllReportsFixed(selected: seq<string>, listed: seq<Report>): seq<string>
  {
    if AllListedSelected(selected, listed) then [] else Map(listed, ReportId)
  }

  /** After the intended toggle either nothing is selected (every listed
      report was) or every listed report is; and when the selection holds
      only listed reports, each once, it agrees with the source. */
  lemma SelectAllReportsFixedSpec(selected: seq<string>, listed: seq<Report>)
    ensures AllListedSelected(selected, listed) ==> SelectAllReportsFixed(selected, listed) == []
    ensures !AllListedSelected(selected, listed) ==> AllListedSelected(SelectAllReportsFixed(selected, listed), listed)
    ensures NoDups(Map(listed, ReportId)) && SelectionOf(selected, Map(listed, ReportId)) ==>
      SelectAllReportsFixed(selected, listed) == SelectAllReports(selected, listed)
  {
    var ids := Map(listed, ReportId);
    if !AllListedSelected(selected, listed) {
      forall i | 0 <= i < |listed| ensures listed[i].id in SelectAllReportsFixed(selected, listed) {
        assert SelectAllReportsFixed(selected, listed)[i] == listed[i].id;
      }
    }
    if NoDups(ids) && SelectionOf(selected, ids) {
      FullCountIsAll(selected, ids);
      assert AllListedSelected(selected, listed) <==> forall i :: 0 <= i < |ids| ==> ids[i] in selected;
    }
  }

  /** `handleDelete`: that report goes and its id leaves the selection. */
  function DeleteReport(reports: seq<Report>, selected: seq<string>, id: string): (seq<Report>, seq<string>)
  {
    (Filter(reports, (r: Report) => r.id != id), RemoveAll(selected, id))
  }

  /** `handleBulkDelete`: every selected report goes and the selection is
      cleared. */
  function BulkDeleteReports(reports: seq<Report>, selected: seq<string>): (seq<Report>, seq<string>)
  {
    (Filter(reports, (r: Report) => r.id !in selected), [])
  }

  /** Exactly the named (or selected) reports go, the rest keep their order,
      and the deleted id is no longer selected. */
  lemma DeleteReportsSpec(reports: seq<Report>, selected: seq<string>, id: string)
    ensures forall r :: r in DeleteReport(reports, selected, id).0 <==> r in reports && r.id != id
    ensures IsSubseq(DeleteReport(reports, selected, id).0, reports)
    ensures id !in DeleteReport(reports, selected, id).1
    ensures forall y :: y != id ==> (y in DeleteReport(reports, selected, id).1 <==> y in selected)
    ensures forall r :: r in BulkDeleteReports(reports, selected).0 <==> r in reports && r.id !in selected
    ensures IsSubseq(BulkDeleteReports(reports, selected).0, reports)
    ensures BulkDeleteReports(reports, selected).1 == []
  {
    FilterIsSubseq(reports, (r: Report) => r.id != id);
    FilterIsSubseq(reports, (r: Report) => r.id !in selected);
  }
}
