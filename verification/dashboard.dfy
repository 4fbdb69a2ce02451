/** The dashboard page: the header filters over the loaded interactions, the
    wrap-up option list, merging filter changes, the list of uploaded files
    and the CSV export text. */
module Dashboard {
  import opened Wrappers
  import opened Seqs
  import opened Text
  import opened Records
  import Analysis

  /* ------------------------------------------------------------ filters */

  /** Optional bounds on the start instant. */
  datatype DateRange = DateRange(from: Option<Instant>, to: Option<Instant>)

  /** `InteractionFilters`: a date range and one selection per field; "all"
      (or the empty string) selects everything. */
  datatype Filters = Filters(
    dateRange: DateRange,
    queue: string,
    agent: string,
    mediaType: string,
    wrapUp: string,
    flow: string)

  /** The filter state the page starts with. */
  const InitialFilters := Filters(DateRange(None, None), "all", "all", "all", "all", "all")

  /** `sel && sel !== "all"`: the selection constrains its field. */
  predicate Selected(sel: string)
  {
    sel != "" && sel != "all"
  }

  /** The header filter's test of one interaction. Date bounds are
      inclusive; queue, agent, wrap-up and flow match by substring, the
      media type by equality; a missing wrap-up or flow fails a selection. */
  predicate Passes(f: Filters, x: Interaction)
  {
    && (f.dateRange.from.Some? ==> !(x.startTime() < f.dateRange.from.value))
    && (f.dateRange.to.Some? ==> !(x.startTime() > f.dateRange.to.value))
    && (Selected(f.queue) ==> Contains(x.queue(), f.queue))
    && (Selected(f.agent) ==> Contains(x.agent(), f.agent))
    && (Selected(f.mediaType) ==> x.mediaType() == f.mediaType)
    && (Selected(f.wrapUp) ==> Truthy(x.wrapUp()) && Contains(x.wrapUp().value, f.wrapUp))
    && (Selected(f.flow) ==> Truthy(x.flow()) && Contains(x.flow().value, f.flow))
  }

  /** `filteredInteractions`. */
  function FilterInteractions(xs: seq<Interaction>, f: Filters): seq<Interaction>
  {
    Filter(xs, x => Passes(f, x))
  }

  /** The result keeps exactly the passing interactions, in their order, and
      filtering again changes nothing. */
  lemma FilterInteractionsSpec(xs: seq<Interaction>, f: Filters)
    ensures forall x :: x in FilterInteractions(xs, f) <==> x in xs && Passes(f, x)
    ensures IsSubseq(FilterInteractions(xs, f), xs)
    ensures FilterInteractions(FilterInteractions(xs, f), f) == FilterInteractions(xs, f)
  {
    FilterIsSubseq(xs, x => Passes(f, x));
    FilterIdempotent(xs, x => Passes(f, x));
  }

  /** The initial filter state keeps everything. */
  lemma InitialFiltersKeepAll(xs: seq<Interaction>)
    ensures FilterInteractions(xs, InitialFilters) == xs
  {
    FilterAll(xs, x => Passes(InitialFilters, x));
  }

  /** A date range alone keeps the interactions starting inside it, both
      ends included; a missing bound does not constrain. */
  lemma DateRangeOnly(from: Option<Instant>, to: Option<Instant>, x: Interaction)
    ensures Passes(InitialFilters.(dateRange := DateRange(from, to)), x) <==>
      (from.None? || from.value <= x.startTime()) && (to.None? || x.startTime() <= to.value)
  {
  }

  /** A queue selection alone keeps the interactions whose queue contains it,
      case-sensitively. */
  lemma QueueOnly(q: string, x: Interaction)
    requires Selected(q)
    ensures Passes(InitialFilters.(queue := q), x) <==> exists i :: OccursAt(x.queue(), q, i)
  {
    ContainsIff(x.queue(), q);
  }

  /** An agent selection alone keeps the interactions whose agent contains
      it. */
  lemma AgentOnly(a: string, x: Interaction)
    requires Selected(a)
    ensures Passes(InitialFilters.(agent := a), x) <==> exists i :: OccursAt(x.agent(), a, i)
  {
    ContainsIff(x.agent(), a);
  }

  /** A media type selection alone keeps exactly that media type. */
  lemma MediaTypeOnly(m: string, x: Interaction)
    requires Selected(m)
    ensures Passes(InitialFilters.(mediaType := m), x) <==> x.mediaType() == m
  {
  }

  /** A wrap-up selection alone keeps the interactions with a wrap-up text
      containing it; one without a wrap-up is dropped. */
  lemma WrapUpOnly(w: string, x: Interaction)
    requires Selected(w)
    ensures Passes(InitialFilters.(wrapUp := w), x) <==>
      x.wrapUp().Some? && exists i :: OccursAt(x.wrapUp().value, w, i)
  {
    if x.wrapUp().Some? {
      ContainsIff(x.wrapUp().value, w);
    }
  }

  /** A flow selection alone keeps the interactions with a flow containing
      it; one without a flow is dropped. */
  lemma FlowOnly(w: string, x: Interaction)
    requires Selected(w)
    ensures Passes(InitialFilters.(flow := w), x) <==>
      x.flow().Some? && exists i :: OccursAt(x.flow().value, w, i)
  {
    if x.flow().Some? {
      ContainsIff(x.flow().value, w);
    }
  }

  /** The fields combine by conjunction: passing the whole filter is passing
      each part on its own. */
  lemma PassesEveryPart(f: Filters, x: Interaction)
    ensures Passes(f, x) <==>
      && Passes(InitialFilters.(dateRange := f.dateRange), x)
      && Passes(InitialFilters.(queue := f.queue), x)
      && Passes(InitialFilters.(agent := f.agent), x)
      && Passes(InitialFilters.(mediaType := f.mediaType), x)
      && Passes(InitialFilters.(wrapUp := f.wrapUp), x)
      && Passes(InitialFilters.(flow := f.flow), x)
  {
  }

  function WithFields(queue: string, mediaType: string): Interaction
  {
    Interaction(1, Record("c", "a", "u", queue, mediaType, "Inbound", 0, None, None, 0, 0, None, None))
  }

  /** The same selection text matches a queue by substring but a media type
      only by equality. */
  lemma MediaTypeIsNotSubstring()
    ensures Passes(InitialFilters.(queue := "voi"), WithFields("voice", "voice"))
    ensures !Passes(InitialFilters.(mediaType := "voi"), WithFields("voice", "voice"))
  {
    assert OccursAt("voice", "voi", 0);
    QueueOnly("voi", WithFields("voice", "voice"));
  }

  /* ----------------------------------------------------- wrap-up options */

  /** The non-empty trimmed `;`-tokens of an interaction's wrap-up text. */
  function OptionTokens(x: Interaction): seq<string>
  {
    if Truthy(x.wrapUp()) then Filter(Map(Split(x.wrapUp().value, ';'), Trim), NonEmpty) else []
  }

  /** `wrapUps`: every token added once when first met, then sorted. */
  function WrapUpOptions(xs: seq<Interaction>): seq<string>
  {
    SortStrings(Distinct(Flatten(Map(xs, OptionTokens))))
  }

  /** The options are strictly ascending and are exactly the non-empty
      codes the wrap-up analysis counts. */
  lemma WrapUpOptionsSpec(xs: seq<Interaction>)
    ensures StrictlySorted(WrapUpOptions(xs))
    ensures NoDups(WrapUpOptions(xs))
    ensures forall v :: v in WrapUpOptions(xs) <==> v != "" && v in Analysis.AllCodes(xs)
  {
    var r := WrapUpOptions(xs);
    forall i, j | 0 <= i < j < |r| ensures r[i] != r[j] {
      if r[i] == r[j] { LexIrreflexive(r[i]); }
    }
    var ts := Map(xs, OptionTokens);
    var cs := Map(xs, Analysis.WrapUpCodes);
    forall v ensures v in r <==> v != "" && v in Analysis.AllCodes(xs) {
      FlattenMember(ts, v);
      FlattenMember(cs, v);
      forall i | 0 <= i < |xs| ensures v in ts[i] <==> v != "" && v in cs[i] {
        assert ts[i] == OptionTokens(xs[i]) && cs[i] == Analysis.WrapUpCodes(xs[i]);
      }
    }
  }

  /* ------------------------------------------------------ filter changes */

  /** `Partial<InteractionFilters>`: the fields a change sets. */
  datatype FilterChange = FilterChange(
    dateRange: Option<DateRange>,
    queue: Option<string>,
    agent: Option<string>,
    mediaType: Option<string>,
    wrapUp: Option<string>,
    flow: Option<string>)

  const NoChange := FilterChange(None, None, None, None, None, None)

  /** `handleFiltersChange`: `{ ...prev, ...newFilters }`. */
  function ApplyChange(prev: Filters, c: FilterChange): Filters
  {
    Filters(
      c.dateRange.GetOr(prev.dateRange),
      c.queue.GetOr(prev.queue),
      c.agent.GetOr(prev.agent),
      c.mediaType.GetOr(prev.mediaType),
      c.wrapUp.GetOr(prev.wrapUp),
      c.flow.GetOr(prev.flow))
  }

  /** A field the change sets takes the new value; every other field keeps
      its old one. Applying the same change twice is applying it once, and
      the empty change leaves the filters as they were. */
  lemma ApplyChangeSpec(prev: Filters, c: FilterChange)
    ensures c.queue.Some? ==> ApplyChange(prev, c).queue == c.queue.value
    ensures c.queue.None? ==> ApplyChange(prev, c).queue == prev.queue
    ensures c.agent.Some? ==> ApplyChange(prev, c).agent == c.agent.value
    ensures c.agent.None? ==> ApplyChange(prev, c).agent == prev.agent
    ensures c.mediaType.Some? ==> ApplyChange(prev, c).mediaType == c.mediaType.value
    ensures c.mediaType.None? ==> ApplyChange(prev, c).mediaType == prev.mediaType
    ensures c.wrapUp.Some? ==> ApplyChange(prev, c).wrapUp == c.wrapUp.value
    ensures c.wrapUp.None? ==> ApplyChange(prev, c).wrapUp == prev.wrapUp
    ensures c.flow.Some? ==> ApplyChange(prev, c).flow == c.flow.value
    ensures c.flow.None? ==> ApplyChange(prev, c).flow == prev.flow
    ensures c.dateRange.Some? ==> ApplyChange(prev, c).dateRange == c.dateRange.value
    ensures c.dateRange.None? ==> ApplyChange(prev, c).dateRange == prev.dateRange
    ensures ApplyChange(ApplyChange(prev, c), c) == ApplyChange(prev, c)
    ensures ApplyChange(prev, NoChange) == prev
  {
  }

  /* -------------------------------------------------------------- files */

  /** An entry of the uploaded-files list. */
  datatype UploadedFile = UploadedFile(
    id: string,
    name: string,
    uploadDate: Instant,
    recordCount: int,
    isActive: bool,
    size: string)

  /** `handleUploadComplete`, with the clock reading `now` as a parameter:
      the id is the decimal text of `now`. */
  function UploadComplete(files: seq<UploadedFile>, fileName: string, recordCount: int, now: Instant): (r: seq<UploadedFile>)
    ensures |r| == |files| + 1
    ensures r[..|files|] == files
    ensures r[|files|].isActive && r[|files|].name == fileName && r[|files|].recordCount == recordCount
    ensures r[|files|].id == IntToString(now) && r[|files|].uploadDate == now
  {
    files + [UploadedFile(IntToString(now), fileName, now, recordCount, true, "Unknown")]
  }

  function Toggled(f: UploadedFile, id: string): UploadedFile
  {
    if f.id == id then f.(isActive := !f.isActive) else f
  }

  /** `handleToggleFile`. */
  function ToggleFile(files: seq<UploadedFile>, id: string): seq<UploadedFile>
  {
    Map(files, f => Toggled(f, id))
  }

  /** Only the files with that id change, and only their active flag;
      toggling twice restores the list. */
  lemma ToggleFileSpec(files: seq<UploadedFile>, id: string)
    ensures |ToggleFile(files, id)| == |files|
    ensures forall i :: 0 <= i < |files| ==>
      ToggleFile(files, id)[i].(isActive := files[i].isActive) == files[i]
    ensures forall i :: 0 <= i < |files| ==>
      (ToggleFile(files, id)[i].isActive != files[i].isActive <==> files[i].id == id)
    ensures ToggleFile(ToggleFile(files, id), id) == files
  {
    var once := ToggleFile(files, id);
    var twice := ToggleFile(once, id);
    assert forall i :: 0 <= i < |files| ==> twice[i] == files[i];
  }

  function NotId(id: string): UploadedFile -> bool
  {
    (f: UploadedFile) => f.id != id
  }

  /** `handleDeleteFile` (the store is cleared too, by a request to the
      server). */
  function DeleteFile(files: seq<UploadedFile>, id: string): seq<UploadedFile>
  {
    Filter(files, NotId(id))
  }

  function NotListed(ids: seq<string>): UploadedFile -> bool
  {
    (f: UploadedFile) => f.id !in ids
  }

  /** `handleDeleteMultiple`. */
  function DeleteMultiple(files: seq<UploadedFile>, ids: seq<string>): seq<UploadedFile>
  {
    Filter(files, NotListed(ids))
  }

  /** Exactly the listed files go; the rest stay in their order. Deleting
      one file is deleting the one-element list. */
  lemma DeleteMultipleSpec(files: seq<UploadedFile>, ids: seq<string>)
    ensures forall f :: f in DeleteMultiple(files, ids) <==> f in files && f.id !in ids
    ensures IsSubseq(DeleteMultiple(files, ids), files)
    ensures ids == [] ==> DeleteMultiple(files, ids) == files
  {
    FilterIsSubseq(files, NotListed(ids));
    if ids == [] {
      FilterAll(files, NotListed(ids));
    }
  }

  lemma DeleteFileSpec(files: seq<UploadedFile>, id: string)
    ensures DeleteFile(files, id) == DeleteMultiple(files, [id])
    ensures forall f :: f in DeleteFile(files, id) <==> f in files && f.id != id
  {
    FilterCongruent(files, NotId(id), NotListed([id]));
  }

  /* ------------------------------------------------------------- export */

  const ExportHeaders: seq<string> := [
    "Agent", "Customer", "Queue", "Media Type", "Duration",
    "Wrap-up", "Start Time", "End Time", "Conversation ID"]

  /** A field in double quotes; quotes inside are not doubled. */
  function Quoted(s: string): string
  {
    "\"" + s + "\""
  }

  /** One exported line; `iso` is `Date.prototype.toISOString`. */
  function ExportLine(x: Interaction, iso: Instant -> string): string
  {
    Join([
      Quoted(x.agent()),
      Quoted(x.customer()),
      Quoted(x.queue()),
      Quoted(x.mediaType()),
      IntToString(x.duration()),
      Quoted(if Truthy(x.wrapUp()) then x.wrapUp().value else ""),
      Quoted(iso(x.startTime())),
      Quoted(iso(x.endTime())),
      Quoted(x.conversationId())], ",")
  }

  function ExportLines(xs: seq<Interaction>, iso: Instant -> string): seq<string>
  {
    [Join(ExportHeaders, ",")] + ExportBody(xs, iso)
  }

  /** The lines after the header, one per interaction. */
  function ExportBody(xs: seq<Interaction>, iso: Instant -> string): (r: seq<string>)
    ensures |r| == |xs|
    ensures forall i :: 0 <= i < |xs| ==> r[i] == ExportLine(xs[i], iso)
  {
    Map(xs, x => ExportLine(x, iso))
  }

  /** `handleExportCSV`'s file text. */
  function ExportCsv(xs: seq<Interaction>, iso: Instant -> string): string
  {
    Join(ExportLines(xs, iso), "\n")
  }

  /** A header line naming the nine columns, then one line per interaction
      in order. */
  lemma ExportLinesSpec(xs: seq<Interaction>, iso: Instant -> string)
    ensures |ExportLines(xs, iso)| == |xs| + 1
    ensures Split(ExportLines(xs, iso)[0], ',') == ExportHeaders
    ensures forall i :: 0 <= i < |xs| ==> ExportLines(xs, iso)[i + 1] == ExportLine(xs[i], iso)
  {
    assert ExportLines(xs, iso)[0] == Join(ExportHeaders, ",");
    HeaderSplit();
    ExportRows(xs, iso);
  }

  lemma ExportRows(xs: seq<Interaction>, iso: Instant -> string)
    ensures |ExportLines(xs, iso)| == |xs| + 1
    ensures forall i :: 0 <= i < |xs| ==> ExportLines(xs, iso)[i + 1] == ExportLine(xs[i], iso)
  {
    var body := ExportBody(xs, iso);
    assert ExportLines(xs, iso)[1..] == body;
  }

  lemma HeaderFields()
    ensures forall i :: 0 <= i < |ExportHeaders| ==> ',' !in ExportHeaders[i] && '\n' !in ExportHeaders[i]
  {
  }

  lemma HeaderSplit()
    ensures Split(Join(ExportHeaders, ","), ',') == ExportHeaders
  {
    HeaderFields();
    SplitJoin(ExportHeaders, ',');
  }

  /** When no field holds a line break, splitting the text at line breaks
      gives the lines back. */
  lemma ExportCsvLines(xs: seq<Interaction>, iso: Instant -> string)
    requires forall i :: 0 <= i < |xs| ==> '\n' !in ExportLine(xs[i], iso)
    ensures Split(ExportCsv(xs, iso), '\n') == ExportLines(xs, iso)
  {
    var ls := ExportLines(xs, iso);
    forall i | 0 <= i < |ls| ensures '\n' !in ls[i] {
      if i > 0 {
        assert ls[i] == ExportLine(xs[i - 1], iso);
      } else {
        HeaderLine();
      }
    }
    SplitJoin(ls, '\n');
  }

  lemma HeaderLine()
    ensures '\n' !in Join(ExportHeaders, ",")
  {
    HeaderFields();
    JoinAvoids(ExportHeaders, ",", '\n');
  }

  /** A character in neither the pieces nor the separator is not in the
      joined text. */
  lemma {:induction false} JoinAvoids(ps: seq<string>, sep: string, c: char)
    requires c !in sep
    requires forall i :: 0 <= i < |ps| ==> c !in ps[i]
    ensures c !in Join(ps, sep)
  {
    if |ps| > 1 {
      JoinAvoids(ps[1..], sep, c);
    }
  }
}
