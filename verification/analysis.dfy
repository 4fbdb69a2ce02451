/** The analysis page: one of four breakdowns of the loaded interactions,
    chosen by the analysis type — queues, the ten busiest agents, counts per
    start hour, or counts per wrap-up code. */
module Analysis {
  import opened Wrappers
  import opened Seqs
  import opened Text
  import opened Records
  import opened Groups
  import opened Metrics
  import Sorting

  datatype View = QueueView | AgentView | TimeView | WrapUpView

  /** A key of the page's counting object and its count. */
  datatype KeyCount = KeyCount(key: string, count: nat)

  function KeyOf(e: KeyCount): string { e.key }
  function CountOf(e: KeyCount): int { e.count }

  /** What the page computes for a view. */
  datatype Breakdown =
    | ByQueue(queues: seq<QueuePerformance>)
    | ByAgent(agents: seq<AgentPerformance>)
    | ByKey(entries: seq<KeyCount>)

  const AgentViewLimit: int := 10

  /* ------------------------------------------------------------ tallies */

  function Entry<T>(g: Group<string, T>): KeyCount
  {
    KeyCount(g.key, |g.members|)
  }

  /** `Object.entries` of a `reduce` that does `acc[k] = (acc[k] || 0) + 1`:
      one entry per key, in the order the keys were first met. */
  function Tally<T>(gs: seq<Group<string, T>>): seq<KeyCount>
  {
    Map(gs, Entry)
  }

  /** `r` counts `xs` by `key`: one entry per key that occurs, each holding
      the number of elements with that key, the counts adding up to `|xs|`. */
  ghost predicate IsTally<T>(r: seq<KeyCount>, xs: seq<T>, key: T -> string)
  {
    && UniqueBy(r, KeyOf)
    && (forall e :: e in r ==> e.key in KeySet(xs, key) && e.count == |Select(xs, key, e.key)|)
    && (forall k :: k in KeySet(xs, key) ==> KeyCount(k, |Select(xs, key, k)|) in r)
    && SumOf(r, CountOf) == |xs|
  }

  lemma {:induction false} TallySum<T>(gs: seq<Group<string, T>>)
    ensures SumOf(Tally(gs), CountOf) == Total(gs)
  {
    if |gs| > 0 {
      assert Tally(gs)[1..] == Tally(gs[1..]);
      TallySum(gs[1..]);
    }
  }

  /** Counting into an object is a tally. */
  lemma TallyOfGroupBy<T(!new)>(xs: seq<T>, key: T -> string)
    ensures IsTally(Tally(GroupBy(xs, key)), xs, key)
  {
    var gs := GroupBy(xs, key);
    var r := Tally(gs);
    GroupByCount(xs, key);
    forall i, j | 0 <= i < j < |r| ensures r[i].key != r[j].key {
      assert r[i].key == gs[i].key && r[j].key == gs[j].key;
    }
    forall e | e in r ensures e.key in KeySet(xs, key) && e.count == |Select(xs, key, e.key)| {
      var i :| 0 <= i < |r| && r[i] == e;
      GroupAt(xs, key, i);
    }
    forall k | k in KeySet(xs, key) ensures KeyCount(k, |Select(xs, key, k)|) in r {
      var i := GroupIndex(xs, key, k);
      GroupAt(xs, key, i);
      assert r[i] == KeyCount(k, |Select(xs, key, k)|);
    }
    TallySum(gs);
    GroupByTotal(xs, key);
  }

  /** Reordering the entries keeps a tally. */
  lemma TallyPermutation<T>(a: seq<KeyCount>, b: seq<KeyCount>, xs: seq<T>, key: T -> string)
    requires IsTally(a, xs, key)
    requires multiset(a) == multiset(b)
    ensures IsTally(b, xs, key)
  {
    UniqueByPermutation(a, b, KeyOf);
    SumOfPermutation(a, b, CountOf);
    forall e ensures e in a <==> e in b {
      assert e in a <==> e in multiset(a);
      assert e in b <==> e in multiset(b);
    }
  }

  /* --------------------------------------------------------- time view */

  /** `${hour}:00` with the hour unpadded. */
  function HourText(h: nat): string
  {
    NatToString(h) + ":00"
  }

  /** The key of the time view: the start hour of the interaction. */
  function TimeKey(x: Interaction): string
  {
    HourText(HourOf(x.startTime()))
  }

  /** `parseInt(key.split(':')[0])`. Every key of the time view is written by
      `HourText`, so the `NaN` case does not arise; it is read as zero. */
  function KeyHour(key: string): int
  {
    match ParseInt(Split(key, ':')[0])
    case Some(h) => h
    case None => 0
  }

  function HourSortKey(e: KeyCount): Sorting.SortKey
  {
    Sorting.Num(KeyHour(e.key))
  }

  /** The time view as counted, in first-seen order. */
  function TimeCounts(xs: seq<Interaction>): seq<KeyCount>
  {
    Tally(GroupBy(xs, TimeKey))
  }

  /** The hourly breakdown as displayed: sorted by the parsed hour. */
  function TimeBreakdown(xs: seq<Interaction>): seq<KeyCount>
  {
    Sorting.SortBy(TimeCounts(xs), HourSortKey, Sorting.Asc)
  }

  /** The hour reads back from its key. */
  lemma {:induction false} KeyHourOfHourText(h: nat)
    ensures KeyHour(HourText(h)) == h
  {
    var m := NatToString(h);
    assert ':' !in m by {
      forall i | 0 <= i < |m| ensures m[i] != ':' { assert IsDigit(m[i]); }
    }
    assert HourText(h) == m + [':'] + "00";
    SplitPrefix(m, ':', "00");
    ParseIntOfNatural(h, "");
    assert m + "" == m;
  }

  /** One entry per start hour that occurs, each with that hour's count and
      the counts adding up to the number of interactions; the hours strictly
      ascend. */
  lemma TimeBreakdownSpec(xs: seq<Interaction>)
    ensures IsTally(TimeBreakdown(xs), xs, TimeKey)
    ensures forall e :: e in TimeBreakdown(xs) ==>
      exists h: nat :: h < 24 && e.key == HourText(h) && KeyHour(e.key) == h
    ensures forall i, j :: 0 <= i < j < |TimeBreakdown(xs)| ==>
      KeyHour(TimeBreakdown(xs)[i].key) < KeyHour(TimeBreakdown(xs)[j].key)
  {
    var r := TimeBreakdown(xs);
    TallyOfGroupBy(xs, TimeKey);
    TallyPermutation(TimeCounts(xs), r, xs, TimeKey);
    forall e | e in r ensures exists h: nat :: h < 24 && e.key == HourText(h) && KeyHour(e.key) == h {
      var x :| x in xs && TimeKey(x) == e.key;
      KeyHourOfHourText(HourOf(x.startTime()));
    }
    Sorting.SortBySorted(TimeCounts(xs), HourSortKey, Sorting.Asc);
    forall i, j | 0 <= i < j < |r| ensures KeyHour(r[i].key) < KeyHour(r[j].key) {
      assert r[i] in r && r[j] in r;
      assert !Sorting.Precedes(HourSortKey(r[j]), HourSortKey(r[i]), Sorting.Asc);
      var a: nat :| a < 24 && r[i].key == HourText(a) && KeyHour(r[i].key) == a;
      var b: nat :| b < 24 && r[j].key == HourText(b) && KeyHour(r[j].key) == b;
      assert r[i].key != r[j].key;
      assert a != b;
    }
  }

  /* ------------------------------------------------------- wrap-up view */

  /** The wrap-up codes one interaction contributes: none without a wrap-up
      text, else the `;`-separated pieces, trimmed (empty pieces included). */
  function WrapUpCodes(x: Interaction): seq<string>
  {
    if Truthy(x.wrapUp()) then Map(Split(x.wrapUp().value, ';'), Trim) else []
  }

  function CodeCount(x: Interaction): int { |WrapUpCodes(x)| }

  /** Every code met, interaction by interaction, in order. */
  function AllCodes(xs: seq<Interaction>): seq<string>
  {
    Flatten(Map(xs, WrapUpCodes))
  }

  function Code(c: string): string { c }

  function WrapUpCounts(xs: seq<Interaction>): seq<KeyCount>
  {
    Tally(GroupBy(AllCodes(xs), Code))
  }

  function CountSortKey(e: KeyCount): Sorting.SortKey
  {
    Sorting.Num(e.count)
  }

  /** The wrap-up breakdown as displayed: most frequent code first. */
  function WrapUpBreakdown(xs: seq<Interaction>): seq<KeyCount>
  {
    Sorting.SortBy(WrapUpCounts(xs), CountSortKey, Sorting.Desc)
  }

  /** One code per `;`-separated piece of a non-empty wrap-up text, each
      trimmed and free of `;`. */
  lemma WrapUpCodesSpec(x: Interaction)
    ensures Truthy(x.wrapUp()) ==> |WrapUpCodes(x)| == Count(x.wrapUp().value, ';') + 1
    ensures !Truthy(x.wrapUp()) ==> WrapUpCodes(x) == []
    ensures forall i :: 0 <= i < |WrapUpCodes(x)| ==> ';' !in WrapUpCodes(x)[i]
    ensures forall i :: 0 <= i < |WrapUpCodes(x)| ==> Trim(WrapUpCodes(x)[i]) == WrapUpCodes(x)[i]
  {
    if Truthy(x.wrapUp()) {
      var ps := Split(x.wrapUp().value, ';');
      forall i | 0 <= i < |ps| ensures ';' !in Trim(ps[i]) && Trim(Trim(ps[i])) == Trim(ps[i]) {
        TrimChars(ps[i]);
        TrimIdempotent(ps[i]);
      }
    }
  }

  lemma {:induction false} AllCodesLength(xs: seq<Interaction>)
    ensures |AllCodes(xs)| == SumOf(xs, CodeCount)
  {
    if |xs| > 0 {
      assert Map(xs, WrapUpCodes)[1..] == Map(xs[1..], WrapUpCodes);
      AllCodesLength(xs[1..]);
    }
  }

  lemma {:induction false} SelectCodeCount(s: seq<string>, c: string)
    ensures |Select(s, Code, c)| == Count(s, c)
  {
    if |s| > 0 {
      SelectCodeCount(s[1..], c);
    }
  }

  /** One entry per code, each counting the code's occurrences; the counts
      add up to the number of codes, one more than the `;` separators of
      each wrap-up text; most frequent first. */
  lemma WrapUpBreakdownSpec(xs: seq<Interaction>)
    ensures IsTally(WrapUpBreakdown(xs), AllCodes(xs), Code)
    ensures forall e :: e in WrapUpBreakdown(xs) ==> e.count == Count(AllCodes(xs), e.key) > 0
    ensures SumOf(WrapUpBreakdown(xs), CountOf) == SumOf(xs, CodeCount)
    ensures forall i, j :: 0 <= i < j < |WrapUpBreakdown(xs)| ==>
      WrapUpBreakdown(xs)[i].count >= WrapUpBreakdown(xs)[j].count
  {
    var r := WrapUpBreakdown(xs);
    TallyOfGroupBy(AllCodes(xs), Code);
    TallyPermutation(WrapUpCounts(xs), r, AllCodes(xs), Code);
    forall e | e in r ensures e.count == Count(AllCodes(xs), e.key) > 0 {
      SelectCodeCount(AllCodes(xs), e.key);
    }
    AllCodesLength(xs);
    Sorting.SortBySorted(WrapUpCounts(xs), CountSortKey, Sorting.Desc);
    forall i, j | 0 <= i < j < |r| ensures r[i].count >= r[j].count {
      assert !Sorting.Precedes(CountSortKey(r[j]), CountSortKey(r[i]), Sorting.Desc);
    }
  }

  /* ------------------------------------------------------------ the page */

  /** The page's memoised analysis data for a view; the time and wrap-up
      views are the raw counts, sorted only when displayed. */
  function Analyse(xs: seq<Interaction>, v: View): Breakdown
  {
    match v
    case QueueView => ByQueue(QueueDistribution(xs))
    case AgentView => ByAgent(TopAgents(xs, AgentViewLimit))
    case TimeView => ByKey(TimeCounts(xs))
    case WrapUpView => ByKey(WrapUpCounts(xs))
  }

  /** The agent view lists the ten busiest agents, or all when fewer. */
  lemma AnalyseAgentView(xs: seq<Interaction>)
    ensures Analyse(xs, AgentView).ByAgent?
    ensures |Analyse(xs, AgentView).agents| == Min(AgentViewLimit, |KeySet(xs, AgentOf)|)
    ensures forall i, j :: 0 <= i < j < |Analyse(xs, AgentView).agents| ==>
      Analyse(xs, AgentView).agents[i].interactions >= Analyse(xs, AgentView).agents[j].interactions
  {
    TopAgentsSpec(xs, AgentViewLimit);
  }

  /** The time view counts interactions per start hour; the display only
      reorders it. */
  lemma AnalyseTimeView(xs: seq<Interaction>)
    ensures Analyse(xs, TimeView).ByKey?
    ensures IsTally(Analyse(xs, TimeView).entries, xs, TimeKey)
    ensures multiset(Analyse(xs, TimeView).entries) == multiset(TimeBreakdown(xs))
  {
    assert Analyse(xs, TimeView).entries == TimeCounts(xs);
    TallyOfGroupBy(xs, TimeKey);
  }

  /** The wrap-up view counts code occurrences; the display only reorders
      it. */
  lemma AnalyseWrapUpView(xs: seq<Interaction>)
    ensures Analyse(xs, WrapUpView).ByKey?
    ensures IsTally(Analyse(xs, WrapUpView).entries, AllCodes(xs), Code)
    ensures multiset(Analyse(xs, WrapUpView).entries) == multiset(WrapUpBreakdown(xs))
  {
    assert Analyse(xs, WrapUpView).entries == WrapUpCounts(xs);
    TallyOfGroupBy(AllCodes(xs), Code);
  }
}
