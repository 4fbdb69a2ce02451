/** The CSV record normaliser (`parseCSVData` in `csv-parser.ts`): which raw
    rows are kept, and how each kept row becomes a `Record`. The tokenising
    itself and the date parsing are outside the model: rows arrive as
    column-to-cell maps, and the date parser is a parameter. */
module Normalizer {
  import opened Wrappers
  import Seqs
  import opened Text
  import opened Records

  const UnknownAgent: string := "Unknown Agent"
  const UnknownQueue: string := "Unknown Queue"
  const DefaultMediaType: string := "message"
  const DefaultDirection: string := "Inbound/Outbound"

  /** `row[col]`: `None` when the line had no such cell. */
  function Cell(row: RawRow, col: Column): Option<string>
  {
    if col in row then Some(row[col]) else None
  }

  /** `v?.trim()`, kept only when non-empty (`v?.trim() || null`). */
  function TrimmedOrNull(v: Option<string>): (r: Option<string>)
    ensures r.Some? <==> v.Some? && !AllSpace(v.value)
    ensures r.Some? ==> r.value != "" && r.value == Trim(v.value)
  {
    match v
    case None => None
    case Some(s) =>
      TrimEmptyIff(s);
      if Trim(s) == "" then None else Some(Trim(s))
  }

  /* ------------------------------------------------------------ tokens */

  /** A token that `filter(Boolean)` drops: it trims to the empty string
      (see `Text.TrimEmptyIff`). */
  predicate Blank(p: string)
  {
    AllSpace(p)
  }

  /** Piece `i` is the first one that is not blank. */
  predicate FirstNonBlankAt(ps: seq<string>, i: int)
  {
    0 <= i < |ps| && !Blank(ps[i]) && forall j :: 0 <= j < i ==> Blank(ps[j])
  }

  /** Where `ps.map(p => p.trim()).filter(Boolean)[0]` comes from: the index
      of the first non-blank piece, `None` when every piece is blank. */
  function FirstNonBlank(ps: seq<string>): (r: Option<nat>)
    ensures r.None? ==> forall i :: 0 <= i < |ps| ==> Blank(ps[i])
    ensures r.Some? ==> FirstNonBlankAt(ps, r.value)
  {
    if |ps| == 0 then None
    else if !Blank(ps[0]) then Some(0)
    else
      var r := FirstNonBlank(ps[1..]);
      if r.Some? then Some(r.value + 1) else None
  }

  /** There is only one first non-blank piece. */
  lemma FirstNonBlankUnique(ps: seq<string>, i: int)
    requires FirstNonBlankAt(ps, i)
    ensures forall j :: FirstNonBlankAt(ps, j) ==> j == i
  {
  }

  /** A fallback the extractors may return: non-empty, no separator, already trimmed. */
  predicate GoodFallback(f: string)
  {
    f != "" && ';' !in f && Trim(f) == f
  }

  lemma AgentFallbackGood()
    ensures GoodFallback(UnknownAgent)
  {
    assert forall i :: 0 <= i < |UnknownAgent| ==> UnknownAgent[i] != ';';
    FallbackGood(UnknownAgent);
  }

  lemma QueueFallbackGood()
    ensures GoodFallback(UnknownQueue)
  {
    assert forall i :: 0 <= i < |UnknownQueue| ==> UnknownQueue[i] != ';';
    FallbackGood(UnknownQueue);
  }

  lemma FallbackGood(f: string)
    requires |f| > 0 && !IsSpace(f[0]) && !IsSpace(f[|f| - 1])
    requires forall i :: 0 <= i < |f| ==> f[i] != ';'
    ensures GoodFallback(f)
  {
    TrimNoOuterSpace(f);
  }

  /** The first non-blank trimmed `;`-token of `s`, else the fallback. */
  function ExtractFirst(s: string, fallback: string): string
  {
    var ps := Split(s, ';');
    match FirstNonBlank(ps)
    case Some(i) => Trim(ps[i])
    case None => fallback
  }

  /** The extracted name is the trimmed first non-blank piece, or the fallback
      when every piece is blank; it is never empty and holds no separator. */
  lemma ExtractFirstSpec(s: string, fallback: string)
    requires GoodFallback(fallback)
    ensures ExtractFirst(s, fallback) != "" && ';' !in ExtractFirst(s, fallback)
    ensures Trim(ExtractFirst(s, fallback)) == ExtractFirst(s, fallback)
    ensures forall i :: FirstNonBlankAt(Split(s, ';'), i) ==> ExtractFirst(s, fallback) == Trim(Split(s, ';')[i])
    ensures (forall i :: 0 <= i < |Split(s, ';')| ==> Blank(Split(s, ';')[i])) ==> ExtractFirst(s, fallback) == fallback
  {
    var ps := Split(s, ';');
    match FirstNonBlank(ps)
    case Some(i) =>
      assert ExtractFirst(s, fallback) == Trim(ps[i]);
      TokenFacts(ps[i]);
      FirstNonBlankUnique(ps, i);
    case None =>
      assert ExtractFirst(s, fallback) == fallback;
  }

  /** A non-blank piece without separators trims to a non-empty name without
      separators that trimming leaves alone. */
  lemma TokenFacts(p: string)
    requires !Blank(p) && ';' !in p
    ensures Trim(p) != "" && ';' !in Trim(p) && Trim(Trim(p)) == Trim(p)
  {
    TrimEmptyIff(p);
    TrimChars(p);
    TrimIdempotent(p);
  }

  /** `extractAgentNames`: the first agent named in `Users`. */
  function ExtractAgentName(users: string): string
  {
    ExtractFirst(users, UnknownAgent)
  }

  /** `extractQueueName`: the primary queue named in `Queue`. */
  function ExtractQueueName(queues: string): string
  {
    ExtractFirst(queues, UnknownQueue)
  }

  /** The agent is the first non-blank trimmed `;`-token of `Users`, or
      "Unknown Agent" when there is none; never empty, never holding `;`. */
  lemma ExtractAgentNameSpec(users: string)
    ensures ExtractAgentName(users) != "" && ';' !in ExtractAgentName(users)
    ensures forall i :: FirstNonBlankAt(Split(users, ';'), i) ==> ExtractAgentName(users) == Trim(Split(users, ';')[i])
    ensures (forall i :: 0 <= i < |Split(users, ';')| ==> Blank(Split(users, ';')[i])) ==> ExtractAgentName(users) == UnknownAgent
  {
    var f := UnknownAgent;
    assert ExtractAgentName(users) == ExtractFirst(users, f);
    AgentFallbackGood();
    ExtractFirstSpec(users, f);
  }

  /** The queue is the first non-blank trimmed `;`-token of `Queue`, or
      "Unknown Queue" when there is none; never empty, never holding `;`. */
  lemma ExtractQueueNameSpec(queues: string)
    ensures ExtractQueueName(queues) != "" && ';' !in ExtractQueueName(queues)
    ensures forall i :: FirstNonBlankAt(Split(queues, ';'), i) ==> ExtractQueueName(queues) == Trim(Split(queues, ';')[i])
    ensures (forall i :: 0 <= i < |Split(queues, ';')| ==> Blank(Split(queues, ';')[i])) ==> ExtractQueueName(queues) == UnknownQueue
  {
    var f := UnknownQueue;
    assert ExtractQueueName(queues) == ExtractFirst(queues, f);
    QueueFallbackGood();
    ExtractFirstSpec(queues, f);
  }

  /** Extracting from an extracted name changes nothing. */
  lemma ExtractFirstIdempotent(s: string, fallback: string)
    requires GoodFallback(fallback)
    ensures ExtractFirst(ExtractFirst(s, fallback), fallback) == ExtractFirst(s, fallback)
  {
    var r := ExtractFirst(s, fallback);
    ExtractFirstSpec(s, fallback);
    NameIsOwnToken(r);
  }

  /** A trimmed name without separators is its own first token. */
  lemma NameIsOwnToken(r: string)
    requires r != "" && ';' !in r && Trim(r) == r
    ensures FirstNonBlankAt(Split(r, ';'), 0) && Split(r, ';')[0] == r
  {
    assert !Blank(r) by {
      TrimEmptyIff(r);
    }
    SplitNoSep(r, ';');
  }

  lemma ExtractAgentNameIdempotent(users: string)
    ensures ExtractAgentName(ExtractAgentName(users)) == ExtractAgentName(users)
  {
    AgentFallbackGood();
    ExtractFirstIdempotent(users, UnknownAgent);
  }

  lemma ExtractQueueNameIdempotent(queues: string)
    ensures ExtractQueueName(ExtractQueueName(queues)) == ExtractQueueName(queues)
  {
    QueueFallbackGood();
    ExtractFirstIdempotent(queues, UnknownQueue);
  }

  /* ---------------------------------------------------------- duration */

  /** `parseDuration`: `parseInt` of the trimmed cell, 0 when that is `NaN`;
      a missing cell makes `trim` throw, which is caught and also gives 0. */
  function ParseDuration(cell: Option<string>): (r: int)
    ensures r < 0 ==> cell.Some? && '-' in cell.value
  {
    match cell
    case None => 0
    case Some(s) =>
      var p := ParseInt(Trim(s));
      assert p.Some? && p.value < 0 ==> '-' in s by {
        if p.Some? && p.value < 0 {
          TrimChars(s);
          var t := TrimStart(Trim(s));
          assert t == Trim(s)[|Trim(s)| - |t|..];
          assert t[0] in Trim(s);
        }
      }
      p.GetOr(0)
  }

  /** A cell holding a printed integer reads back as that integer, negative
      values included (nothing is clamped). */
  lemma ParseDurationOfInt(i: int)
    ensures ParseDuration(Some(IntToString(i))) == i
  {
    var s := IntToString(i);
    var n: nat := if i < 0 then -i else i;
    assert s[0] == '-' || IsDigit(s[0]);
    assert IsDigit(s[|s| - 1]);
    TrimNoOuterSpace(s);
    ParseIntOfIntToString(i, "");
    assert s + "" == s;
  }

  /** A cell that does not start with a digit or a sign (after white space)
      reads as 0. */
  lemma ParseDurationNoDigits(s: string)
    requires |Trim(s)| > 0 && !IsDigit(Trim(s)[0]) && Trim(s)[0] != '-' && Trim(s)[0] != '+'
    ensures ParseDuration(Some(s)) == 0
  {
    TrimStartNoSpace(Trim(s));
  }

  /** What `parseInt` reads at the head of a trimmed cell: an optional sign,
      then a non-empty run of digits, then anything that does not continue
      the run. */
  predicate SignedDigitsHead(t: string, sgn: string, d: string, rest: string)
  {
    (sgn == "" || sgn == "+" || sgn == "-")
    && |d| > 0 && (forall i :: 0 <= i < |d| ==> IsDigit(d[i]))
    && (|rest| > 0 ==> !IsDigit(rest[0]))
    && t == sgn + d + rest
  }

  /** The value law of `parseDuration`: the trimmed cell's leading digit run,
      negated after a minus sign; whatever follows the run is ignored, so
      "300000ms" reads 300000, "+5" reads 5 and "007" reads 7. */
  lemma ParseDurationLeadingDigits(s: string, sgn: string, d: string, rest: string)
    requires SignedDigitsHead(Trim(s), sgn, d, rest)
    ensures ParseDuration(Some(s)) == if sgn == "-" then -(DigitsValue(d) as int) else DigitsValue(d)
  {
    ParseIntSignedDigits(sgn, d, rest);
  }

  /** A sign that no digit follows reads as `NaN`, hence 0: "-" and "-x"
      both give 0. */
  lemma ParseDurationBareSign(s: string, sgn: string, rest: string)
    requires (sgn == "+" || sgn == "-") && Trim(s) == sgn + rest
    requires |rest| > 0 ==> !IsDigit(rest[0])
    ensures ParseDuration(Some(s)) == 0
  {
    ParseIntBareSign(sgn, rest);
  }

  /** A missing cell makes `trim` throw and a blank one reads as `NaN`; both
      give 0. With the two lemmas above and `ParseDurationNoDigits` this
      covers every cell. */
  lemma ParseDurationEmpty(cell: Option<string>)
    requires cell.None? || Trim(cell.value) == ""
    ensures ParseDuration(cell) == 0
  {
  }

  /* --------------------------------------------------------------- rows */

  /** The row filter: all of these cells present and non-empty (a cell of
      only spaces counts as non-empty). */
  predicate Keep(row: RawRow)
  {
    Truthy(Cell(row, Column.ConversationId)) && Truthy(Cell(row, Column.Date))
    && Truthy(Cell(row, Column.EndDate)) && Truthy(Cell(row, Column.Users))
    && Truthy(Cell(row, Column.Remote))
  }

  /** The row map, for a kept row that has a `Queue` cell. */
  function NormalizeRow(row: RawRow, parseDate: string -> Instant): Record
    requires Keep(row) && Column.Queue in row
  {
    Record(
      conversationId := Trim(row[Column.ConversationId]),
      agent := ExtractAgentName(row[Column.Users]),
      customer := Trim(row[Column.Remote]),
      queue := ExtractQueueName(row[Column.Queue]),
      mediaType := TrimmedOrNull(Cell(row, Column.MediaType)).GetOr(DefaultMediaType),
      direction := TrimmedOrNull(Cell(row, Column.Direction)).GetOr(DefaultDirection),
      duration := ParseDuration(Cell(row, Column.Duration)),
      wrapUp := TrimmedOrNull(Cell(row, Column.WrapUp)),
      flow := TrimmedOrNull(Cell(row, Column.Flow)),
      startTime := parseDate(row[Column.Date]),
      endTime := parseDate(row[Column.EndDate]),
      ani := TrimmedOrNull(Cell(row, Column.Ani)),
      dnis := TrimmedOrNull(Cell(row, Column.Dnis)))
  }

  /** What a normalised record holds: names without separators, never-empty
      media type and direction (the defaults standing in for blank cells),
      optional cells that are null exactly when blank or missing, and
      trimmed text wherever a cell is kept. */
  lemma NormalizeRowFields(row: RawRow, parseDate: string -> Instant)
    requires Keep(row) && Column.Queue in row
    ensures var r := NormalizeRow(row, parseDate);
      && r.agent != "" && ';' !in r.agent
      && r.queue != "" && ';' !in r.queue
      && r.conversationId == Trim(row[Column.ConversationId]) && r.customer == Trim(row[Column.Remote])
      && r.mediaType != "" && r.direction != ""
      && (r.mediaType != DefaultMediaType ==> Column.MediaType in row && r.mediaType == Trim(row[Column.MediaType]))
      && (r.direction != DefaultDirection ==> Column.Direction in row && r.direction == Trim(row[Column.Direction]))
      && (Column.MediaType !in row || AllSpace(row[Column.MediaType]) ==> r.mediaType == DefaultMediaType)
      && (Column.Direction !in row || AllSpace(row[Column.Direction]) ==> r.direction == DefaultDirection)
      && (r.wrapUp.Some? <==> Column.WrapUp in row && !AllSpace(row[Column.WrapUp]))
      && (r.flow.Some? <==> Column.Flow in row && !AllSpace(row[Column.Flow]))
      && (r.ani.Some? <==> Column.Ani in row && !AllSpace(row[Column.Ani]))
      && (r.dnis.Some? <==> Column.Dnis in row && !AllSpace(row[Column.Dnis]))
      && (r.wrapUp.Some? ==> r.wrapUp.value == Trim(row[Column.WrapUp]))
      && r.startTime == parseDate(row[Column.Date]) && r.endTime == parseDate(row[Column.EndDate])
  {
    ExtractAgentNameSpec(row[Column.Users]);
    ExtractQueueNameSpec(row[Column.Queue]);
  }

  /** Every kept row of `rows` has a `Queue` cell. */
  predicate QueuesPresent(rows: seq<RawRow>)
  {
    forall i :: 0 <= i < |rows| && Keep(rows[i]) ==> Column.Queue in rows[i]
  }

  /** The row map as a function value, defined on kept rows with a queue. */
  function RowMapper(parseDate: string -> Instant): RawRow --> Record
  {
    row requires Keep(row) && Column.Queue in row => NormalizeRow(row, parseDate)
  }

  /** `rows.map(normalize)` over rows that are all kept and have a queue. */
  function NormalizeAll(rows: seq<RawRow>, parseDate: string -> Instant): (r: seq<Record>)
    requires forall i :: 0 <= i < |rows| ==> Keep(rows[i]) && Column.Queue in rows[i]
    ensures |r| == |rows|
    ensures forall i :: 0 <= i < |rows| ==> r[i] == NormalizeRow(rows[i], parseDate)
  {
    Seqs.Map(rows, RowMapper(parseDate))
  }

  /** `parseCSVData` after tokenising: the kept rows, normalised in input
      order; the whole batch is rejected when a kept row has no `Queue` cell
      (`split` on `undefined` throws inside the `try`). */
  function Normalize(rows: seq<RawRow>, parseDate: string -> Instant): (r: Result<seq<Record>>)
    ensures r.Success? <==> QueuesPresent(rows)
    ensures r.Success? ==> |r.value| == Seqs.CountIf(rows, Keep) <= |rows|
  {
    var kept := Seqs.Filter(rows, Keep);
    if QueuesPresent(rows) then
      assert forall i :: 0 <= i < |kept| ==> kept[i] in rows;
      Success(NormalizeAll(kept, parseDate))
    else
      Failure("Failed to parse CSV data: TypeError")
  }

  /** Every output record is some kept input row, normalised. */
  lemma NormalizeOutputsFromKeptRows(rows: seq<RawRow>, parseDate: string -> Instant, i: int)
    requires Normalize(rows, parseDate).Success? && 0 <= i < |Normalize(rows, parseDate).value|
    ensures exists j :: 0 <= j < |rows| && Keep(rows[j]) && Column.Queue in rows[j]
              && Normalize(rows, parseDate).value[i] == NormalizeRow(rows[j], parseDate)
  {
    var kept := Seqs.Filter(rows, Keep);
    assert kept[i] in rows;
    assert forall k :: 0 <= k < |kept| ==> kept[k] in rows;
    var j :| 0 <= j < |rows| && rows[j] == kept[i];
  }

  /** One row on its own: dropped, normalised, or rejected for a missing `Queue`. */
  lemma NormalizeOne(row: RawRow, parseDate: string -> Instant)
    ensures !Keep(row) ==> Normalize([row], parseDate) == Success([])
    ensures Keep(row) && Column.Queue !in row ==> Normalize([row], parseDate).Failure?
    ensures Keep(row) && Column.Queue in row ==> Normalize([row], parseDate) == Success([NormalizeRow(row, parseDate)])
  {
    assert [row][1..] == [];
    if Keep(row) && Column.Queue in row {
      assert Seqs.Filter([row], Keep) == [row];
      assert QueuesPresent([row]);
      var out := NormalizeAll([row], parseDate);
      assert |out| == 1 && out[0] == NormalizeRow(row, parseDate);
      assert out == [NormalizeRow(row, parseDate)];
    }
  }

  /** Normalising two batches together is normalising each and concatenating:
      rows are handled one at a time and keep their order. */
  lemma NormalizeAppend(a: seq<RawRow>, b: seq<RawRow>, parseDate: string -> Instant)
    ensures Normalize(a + b, parseDate).Success?
        <==> Normalize(a, parseDate).Success? && Normalize(b, parseDate).Success?
    ensures Normalize(a + b, parseDate).Success? ==>
      Normalize(a + b, parseDate).value == Normalize(a, parseDate).value + Normalize(b, parseDate).value
  {
    QueuesPresentAppend(a, b);
    if QueuesPresent(a + b) {
      Seqs.FilterAppend(a, b, Keep);
      var ka, kb := Seqs.Filter(a, Keep), Seqs.Filter(b, Keep);
      assert forall k :: 0 <= k < |ka| ==> ka[k] in a;
      assert forall k :: 0 <= k < |kb| ==> kb[k] in b;
      NormalizeAllAppend(ka, kb, parseDate);
    }
  }

  lemma QueuesPresentAppend(a: seq<RawRow>, b: seq<RawRow>)
    ensures QueuesPresent(a + b) <==> QueuesPresent(a) && QueuesPresent(b)
  {
    if QueuesPresent(a) && QueuesPresent(b) {
      forall i | 0 <= i < |a + b| && Keep((a + b)[i]) ensures Column.Queue in (a + b)[i] {
        if i >= |a| {
          assert (a + b)[i] == b[i - |a|];
        }
      }
    }
    if QueuesPresent(a + b) {
      forall i | 0 <= i < |b| && Keep(b[i]) ensures Column.Queue in b[i] {
        assert (a + b)[|a| + i] == b[i];
      }
      forall i | 0 <= i < |a| && Keep(a[i]) ensures Column.Queue in a[i] {
        assert (a + b)[i] == a[i];
      }
    }
  }

  lemma NormalizeAllAppend(a: seq<RawRow>, b: seq<RawRow>, parseDate: string -> Instant)
    requires forall i :: 0 <= i < |a| ==> Keep(a[i]) && Column.Queue in a[i]
    requires forall i :: 0 <= i < |b| ==> Keep(b[i]) && Column.Queue in b[i]
    ensures NormalizeAll(a + b, parseDate) == NormalizeAll(a, parseDate) + NormalizeAll(b, parseDate)
  {
    Seqs.MapAppend(a, b, RowMapper(parseDate));
  }

  /** A kept row whose `Users` cell holds only separators and blanks is not
      dropped: it is attributed to "Unknown Agent". */
  lemma BlankUsersGiveUnknownAgent()
    ensures ExtractAgentName(" ; ") == UnknownAgent
  {
    SplitPrefix(" ", ';', " ");
    SplitNoSep(" ", ';');
    assert " ; " == " " + [';'] + " ";
    assert Blank(" ");
  }
}
