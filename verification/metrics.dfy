/** The dashboard's aggregation engine over stored interactions: the summary
    metrics, the per-agent and per-queue rollups, the fixed working-hours
    trend, and the small formatting helpers (`lib/data-utils.ts`). */
module Metrics {
  import opened Wrappers
  import opened Seqs
  import opened Text
  import opened Records
  import opened Groups
  import Sorting

  /** `Math.round(p / q)` for a positive divisor: the nearest integer, halves
      rounded up. */
  function RoundDiv(p: int, q: nat): (r: int)
    requires q > 0
    ensures 2 * q * r - q <= 2 * p < 2 * q * r + q
  {
    var r := (2 * p + q) / (2 * q);
    assert 2 * q * r <= 2 * p + q < 2 * q * r + 2 * q;
    r
  }

  /** Rounding a fraction of the whole: a count out of a total, as a
      percentage between 0 and 100. */
  lemma PercentBounds(count: nat, total: nat)
    requires 0 < total && count <= total
    ensures 0 <= RoundDiv(100 * count, total) <= 100
  {
    var r := RoundDiv(100 * count, total);
    if r < 0 {
      MulMonotone(2 * total, r, -1);
    }
    if r > 100 {
      MulMonotone(2 * total, 101, r);
    }
  }

  lemma MulMonotone(a: nat, b: int, c: int)
    requires b <= c
    ensures a * b <= a * c
  {
  }

  function AgentOf(x: Interaction): string { x.rec.agent }
  function QueueOf(x: Interaction): string { x.rec.queue }
  function MediaTypeOf(x: Interaction): string { x.rec.mediaType }
  function DurationOf(x: Interaction): int { x.rec.duration }

  // ---------------------------------------------------------------------
  // calculateMetrics

  datatype InteractionMetrics = InteractionMetrics(
    totalInteractions: nat,
    avgHandleTime: int,
    activeAgents: nat,
    primaryChannelVolume: nat,
    primaryChannelPercentage: int)

  /** `reduce((a, b) => count(a) > count(b) ? a : b)` over the tally's
      entries: the running pick is replaced unless strictly larger, so the
      last of the largest groups wins. */
  function Pick<K, T>(a: Group<K, T>, rest: seq<Group<K, T>>): Group<K, T>
    decreases |rest|
  {
    if |rest| == 0 then a
    else Pick(if |a.members| > |rest[0].members| then a else rest[0], rest[1..])
  }

  /** The reduce without a seed, skipped on an empty tally. */
  function PrimaryChannel<K, T>(gs: seq<Group<K, T>>): Option<Group<K, T>>
  {
    if |gs| == 0 then None else Some(Pick(gs[0], gs[1..]))
  }

  lemma {:induction false} PickIsLargest<K, T>(a: Group<K, T>, rest: seq<Group<K, T>>)
    decreases |rest|
    ensures Pick(a, rest) == a || Pick(a, rest) in rest
    ensures |a.members| <= |Pick(a, rest).members|
    ensures forall i :: 0 <= i < |rest| ==> |rest[i].members| <= |Pick(a, rest).members|
  {
    if |rest| > 0 {
      var b := if |a.members| > |rest[0].members| then a else rest[0];
      PickIsLargest(b, rest[1..]);
      assert forall i :: 1 <= i < |rest| ==> rest[i] == rest[1..][i - 1];
    }
  }

  /** `calculateMetrics`. The count, and the rounded mean handle time in
      minutes, which is 0 when there is nothing to average; the other fields
      are described by the lemmas below. */
  function CalculateMetrics(xs: seq<Interaction>): (m: InteractionMetrics)
    ensures m.totalInteractions == |xs|
    ensures |xs| == 0 ==> m == InteractionMetrics(0, 0, 0, 0, 0)
    ensures |xs| > 0 ==>
      var q := |xs| * MillisPerMinute;
      2 * q * m.avgHandleTime - q <= 2 * SumOf(xs, DurationOf) < 2 * q * m.avgHandleTime + q
  {
    var n := |xs|;
    var avg := if n > 0 then RoundDiv(SumOf(xs, DurationOf), n * MillisPerMinute) else 0;
    var channel := PrimaryChannel(GroupBy(xs, MediaTypeOf));
    var volume := if channel.Some? then |channel.value.members| else 0;
    InteractionMetrics(
      n,
      avg,
      |Distinct(Map(xs, AgentOf))|,
      volume,
      if n > 0 then RoundDiv(volume * 100, n) else 0)
  }

  /** `new Set(agents).size`: the number of distinct agent names. */
  lemma CalculateMetricsAgents(xs: seq<Interaction>)
    ensures CalculateMetrics(xs).activeAgents == |KeySet(xs, AgentOf)|
    ensures CalculateMetrics(xs).activeAgents <= |xs|
    ensures CalculateMetrics(xs).activeAgents == 0 <==> |xs| == 0
  {
    var agents := Map(xs, AgentOf);
    DistinctKeySet(xs, AgentOf);
    NoDupsCard(Distinct(agents));
    if |xs| > 0 {
      assert agents[0] in Distinct(agents);
    }
  }

  /** The primary channel volume is the largest per-media-type count, so it
      does not depend on which of several equally large types the reduce
      keeps; its share is a percentage. */
  lemma CalculateMetricsChannel(xs: seq<Interaction>)
    ensures forall t :: |Select(xs, MediaTypeOf, t)| <= CalculateMetrics(xs).primaryChannelVolume
    ensures |xs| > 0 ==>
      exists x :: x in xs && |Select(xs, MediaTypeOf, MediaTypeOf(x))| == CalculateMetrics(xs).primaryChannelVolume
    ensures 0 <= CalculateMetrics(xs).primaryChannelPercentage <= 100
  {
    forall t ensures |Select(xs, MediaTypeOf, t)| <= CalculateMetrics(xs).primaryChannelVolume {
      ChannelAtMostVolume(xs, t);
    }
    if |xs| > 0 {
      var x := ChannelVolumeAttained(xs);
      SelectLength(xs, MediaTypeOf, MediaTypeOf(x));
      PercentBounds(CalculateMetrics(xs).primaryChannelVolume, |xs|);
    }
  }

  lemma SelectLength<T, K>(xs: seq<T>, key: T -> K, k: K)
    ensures |Select(xs, key, k)| <= |xs|
  {
  }

  /** Some media type reaches the volume. */
  lemma ChannelVolumeAttained(xs: seq<Interaction>) returns (x: Interaction)
    requires |xs| > 0
    ensures x in xs && |Select(xs, MediaTypeOf, MediaTypeOf(x))| == CalculateMetrics(xs).primaryChannelVolume
  {
    var gs := GroupBy(xs, MediaTypeOf);
    GroupByCorrect(xs, MediaTypeOf);
    GroupByTotal(xs, MediaTypeOf);
    assert Total(gs) > 0;
    var g := Pick(gs[0], gs[1..]);
    PickIsLargest(gs[0], gs[1..]);
    assert g in gs;
    var j :| 0 <= j < |gs| && gs[j] == g;
    assert g.key == Distinct(Map(xs, MediaTypeOf))[j];
    assert g.key in Map(xs, MediaTypeOf);
    var i :| 0 <= i < |xs| && Map(xs, MediaTypeOf)[i] == g.key;
    x := xs[i];
  }

  lemma ChannelAtMostVolume(xs: seq<Interaction>, t: string)
    ensures |Select(xs, MediaTypeOf, t)| <= CalculateMetrics(xs).primaryChannelVolume
  {
    var gs := GroupBy(xs, MediaTypeOf);
    GroupByCorrect(xs, MediaTypeOf);
    SizeOfGroupBy(xs, MediaTypeOf, t);
    if t in KeysOf(gs) {
      var j :| 0 <= j < |gs| && KeysOf(gs)[j] == t;
      UniqueKeysOf(gs);
      SizeOfAt(gs, t, j);
      PickIsLargest(gs[0], gs[1..]);
      if j > 0 {
        assert gs[j] == gs[1..][j - 1];
      }
    } else {
      SizeOfAbsent(gs, t);
    }
  }

  lemma {:induction false} TotalBounds<K, T>(gs: seq<Group<K, T>>, j: nat)
    requires j < |gs|
    ensures |gs[j].members| <= Total(gs)
  {
    if j > 0 {
      TotalBounds(gs[1..], j - 1);
    }
  }

  // ---------------------------------------------------------------------
  // getTopAgents

  datatype AgentPerformance = AgentPerformance(
    agent: string,
    interactions: nat,
    avgDuration: int,
    queues: seq<string>)

  /** The per-agent accumulator read back: interaction count, rounded mean
      duration in minutes, and the queues in the order the agent's `Set`
      first saw them. */
  function AgentRow(g: Group<string, Interaction>): AgentPerformance
    requires |g.members| > 0
  {
    AgentPerformance(
      g.key,
      |g.members|,
      RoundDiv(SumOf(g.members, DurationOf), |g.members| * MillisPerMinute),
      Distinct(Map(g.members, QueueOf)))
  }

  function InteractionsKey(p: AgentPerformance): Sorting.SortKey
  {
    Sorting.Num(p.interactions)
  }

  /** `Object.values(agentStats).map(...)`: the rows in first-seen order. */
  function AgentRows(xs: seq<Interaction>): seq<AgentPerformance>
  {
    GroupsNonEmpty(xs, AgentOf);
    Map(GroupBy(xs, AgentOf), AgentRow)
  }

  /** Every agent's row, busiest first; ties keep first-seen order. */
  function AgentRanking(xs: seq<Interaction>): seq<AgentPerformance>
  {
    Sorting.SortBy(AgentRows(xs), InteractionsKey, Sorting.Desc)
  }

  /** `getTopAgents(interactions, limit)`; the default limit is 5. */
  function TopAgents(xs: seq<Interaction>, limit: int): seq<AgentPerformance>
  {
    JsSlice(AgentRanking(xs), 0, limit)
  }

  const DefaultTopAgents: int := 5

  /** What the accumulator holds for one agent: the count, the rounded mean
      duration in minutes, and exactly the agent's queues, each once. */
  lemma AgentRowSpec(g: Group<string, Interaction>)
    requires |g.members| > 0
    ensures AgentRow(g).agent == g.key
    ensures AgentRow(g).interactions == |g.members|
    ensures var q := |g.members| * MillisPerMinute;
      2 * q * AgentRow(g).avgDuration - q <= 2 * SumOf(g.members, DurationOf)
        < 2 * q * AgentRow(g).avgDuration + q
    ensures NoDups(AgentRow(g).queues)
    ensures forall q :: q in AgentRow(g).queues <==> exists x :: x in g.members && QueueOf(x) == q
  {
    var qs := Map(g.members, QueueOf);
    forall q ensures q in qs <==> exists x :: x in g.members && QueueOf(x) == q {
      if exists x :: x in g.members && QueueOf(x) == q {
        var x :| x in g.members && QueueOf(x) == q;
        var i :| 0 <= i < |g.members| && g.members[i] == x;
        assert qs[i] == q;
      }
    }
  }

  /** The row of agent `a` computed from all of `xs`. */
  ghost function AgentStats(xs: seq<Interaction>, a: string): AgentPerformance
    requires a in KeySet(xs, AgentOf)
  {
    var x :| x in xs && AgentOf(x) == a;
    SelectMember(xs, AgentOf, a, x);
    AgentRow(Group(a, Select(xs, AgentOf, a)))
  }

  function AgentName(p: AgentPerformance): string { p.agent }

  /** The ranking holds one row per distinct agent, each the stats of its
      agent, busiest first. */
  lemma AgentRankingFacts(xs: seq<Interaction>)
    ensures |AgentRanking(xs)| == |KeySet(xs, AgentOf)|
    ensures UniqueBy(AgentRanking(xs), AgentName)
    ensures forall i, j :: 0 <= i < j < |AgentRanking(xs)| ==>
              AgentRanking(xs)[i].interactions >= AgentRanking(xs)[j].interactions
    ensures forall p :: p in AgentRanking(xs) <==> p in AgentRows(xs)
  {
    var gs := GroupBy(xs, AgentOf);
    var rows := AgentRows(xs);
    var o := AgentRanking(xs);
    GroupByCount(xs, AgentOf);
    assert UniqueBy(rows, AgentName) by {
      forall i, j | 0 <= i < j < |rows| ensures rows[i].agent != rows[j].agent {
        assert rows[i].agent == gs[i].key && rows[j].agent == gs[j].key;
      }
    }
    UniqueByPermutation(rows, o, AgentName);
    Sorting.SortBySorted(rows, InteractionsKey, Sorting.Desc);
    forall p ensures p in o <==> p in rows {
      assert p in o <==> p in multiset(o);
    }
  }

  /** Each row is the stats of its agent, and every agent has its row. */
  lemma AgentRowsContents(xs: seq<Interaction>)
    ensures forall p :: p in AgentRows(xs) ==> p.agent in KeySet(xs, AgentOf) && p == AgentStats(xs, p.agent)
    ensures forall a :: a in KeySet(xs, AgentOf) ==> AgentStats(xs, a) in AgentRows(xs)
  {
    var rows := AgentRows(xs);
    forall p | p in rows ensures p.agent in KeySet(xs, AgentOf) && p == AgentStats(xs, p.agent) {
      var i :| 0 <= i < |rows| && rows[i] == p;
      GroupAt(xs, AgentOf, i);
    }
    forall a | a in KeySet(xs, AgentOf) ensures AgentStats(xs, a) in rows {
      var i := GroupIndex(xs, AgentOf, a);
      GroupAt(xs, AgentOf, i);
      assert rows[i] == AgentStats(xs, a);
    }
  }

  /** `getTopAgents(interactions, limit)`: at most `limit` rows, one per
      distinct agent, busiest first. */
  lemma TopAgentsSpec(xs: seq<Interaction>, limit: int)
    ensures limit >= 0 ==> |TopAgents(xs, limit)| == Min(limit, |KeySet(xs, AgentOf)|)
    ensures UniqueBy(TopAgents(xs, limit), AgentName)
    ensures forall i, j :: 0 <= i < j < |TopAgents(xs, limit)| ==>
              TopAgents(xs, limit)[i].interactions >= TopAgents(xs, limit)[j].interactions
  {
    AgentRankingFacts(xs);
    var o := AgentRanking(xs);
    assert TopAgents(xs, limit) == o[..ClampIndex(limit, |o|)];
  }

  /** Each listed row is the stats of its agent, and a limit covering every
      agent lists them all. */
  lemma TopAgentsRows(xs: seq<Interaction>, limit: int)
    ensures forall p :: p in TopAgents(xs, limit) ==>
              p.agent in KeySet(xs, AgentOf) && p == AgentStats(xs, p.agent)
    ensures limit >= |KeySet(xs, AgentOf)| ==>
              forall a :: a in KeySet(xs, AgentOf) ==> AgentStats(xs, a) in TopAgents(xs, limit)
  {
    AgentRankingFacts(xs);
    AgentRowsContents(xs);
    var o := AgentRanking(xs);
    var r := TopAgents(xs, limit);
    assert r == o[..ClampIndex(limit, |o|)];
    assert forall p :: p in r ==> p in o;
    if limit >= |KeySet(xs, AgentOf)| {
      assert r == o;
    }
  }

  /** One agent's stats over the whole input: how many interactions it
      handled, their rounded mean duration in minutes, and the queues it
      worked, each listed once. */
  lemma AgentStatsSpec(xs: seq<Interaction>, a: string)
    requires a in KeySet(xs, AgentOf)
    ensures AgentStats(xs, a).agent == a
    ensures AgentStats(xs, a).interactions == |Select(xs, AgentOf, a)| > 0
    ensures var q := AgentStats(xs, a).interactions * MillisPerMinute;
      2 * q * AgentStats(xs, a).avgDuration - q <= 2 * SumOf(Select(xs, AgentOf, a), DurationOf)
        < 2 * q * AgentStats(xs, a).avgDuration + q
    ensures NoDups(AgentStats(xs, a).queues)
    ensures forall q :: q in AgentStats(xs, a).queues <==>
              exists x :: x in xs && AgentOf(x) == a && QueueOf(x) == q
  {
    var x :| x in xs && AgentOf(x) == a;
    SelectMember(xs, AgentOf, a, x);
    var g := Group(a, Select(xs, AgentOf, a));
    AgentRowSpec(g);
    forall y ensures y in g.members <==> y in xs && AgentOf(y) == a {
      SelectMember(xs, AgentOf, a, y);
    }
  }

  // ---------------------------------------------------------------------
  // getQueueDistribution

  datatype QueuePerformance = QueuePerformance(
    queue: string,
    interactions: nat,
    avgDuration: int,
    percentage: int)

  /** The per-queue accumulator read back, with the queue's share of all
      `total` interactions. */
  function QueueRow(g: Group<string, Interaction>, total: nat): QueuePerformance
    requires 0 < |g.members| <= total
  {
    QueuePerformance(
      g.key,
      |g.members|,
      RoundDiv(SumOf(g.members, DurationOf), |g.members| * MillisPerMinute),
      RoundDiv(|g.members| * 100, total))
  }

  function QueueRows(gs: seq<Group<string, Interaction>>, total: nat): (r: seq<QueuePerformance>)
    requires forall i :: 0 <= i < |gs| ==> 0 < |gs[i].members| <= total
    ensures |r| == |gs|
    ensures forall i :: 0 <= i < |gs| ==> r[i] == QueueRow(gs[i], total)
  {
    if |gs| == 0 then [] else [QueueRow(gs[0], total)] + QueueRows(gs[1..], total)
  }

  function QueueCountKey(p: QueuePerformance): Sorting.SortKey
  {
    Sorting.Num(p.interactions)
  }

  function QueueName(p: QueuePerformance): string { p.queue }
  function QueueCount(p: QueuePerformance): int { p.interactions }

  /** No group is larger than the input. */
  lemma GroupsBounded<T(!new), K(!new)>(xs: seq<T>, key: T -> K)
    ensures forall i :: 0 <= i < |GroupBy(xs, key)| ==> 0 < |GroupBy(xs, key)[i].members| <= |xs|
  {
    GroupsNonEmpty(xs, key);
    GroupByTotal(xs, key);
    forall i | 0 <= i < |GroupBy(xs, key)| ensures |GroupBy(xs, key)[i].members| <= |xs| {
      TotalBounds(GroupBy(xs, key), i);
    }
  }

  /** `getQueueDistribution`: every queue's row, busiest first, untruncated. */
  function QueueDistribution(xs: seq<Interaction>): seq<QueuePerformance>
  {
    GroupsBounded(xs, QueueOf);
    Sorting.SortBy(QueueRows(GroupBy(xs, QueueOf), |xs|), QueueCountKey, Sorting.Desc)
  }

  /** The row of queue `q` computed from all of `xs`. */
  ghost function QueueStats(xs: seq<Interaction>, q: string): QueuePerformance
    requires q in KeySet(xs, QueueOf)
  {
    var x :| x in xs && QueueOf(x) == q;
    SelectMember(xs, QueueOf, q, x);
    QueueRow(Group(q, Select(xs, QueueOf, q)), |xs|)
  }

  /** One row per distinct queue, busiest first, and the counts add up to
      the number of interactions. */
  lemma QueueDistributionSpec(xs: seq<Interaction>)
    ensures |QueueDistribution(xs)| == |KeySet(xs, QueueOf)|
    ensures UniqueBy(QueueDistribution(xs), QueueName)
    ensures forall i, j :: 0 <= i < j < |QueueDistribution(xs)| ==>
              QueueDistribution(xs)[i].interactions >= QueueDistribution(xs)[j].interactions
    ensures SumOf(QueueDistribution(xs), QueueCount) == |xs|
  {
    var gs := GroupBy(xs, QueueOf);
    GroupsBounded(xs, QueueOf);
    var rows := QueueRows(gs, |xs|);
    var o := QueueDistribution(xs);
    GroupByCount(xs, QueueOf);
    assert UniqueBy(rows, QueueName) by {
      forall i, j | 0 <= i < j < |rows| ensures rows[i].queue != rows[j].queue {
        assert rows[i].queue == gs[i].key && rows[j].queue == gs[j].key;
      }
    }
    UniqueByPermutation(rows, o, QueueName);
    Sorting.SortBySorted(rows, QueueCountKey, Sorting.Desc);
    SumOfPermutation(o, rows, QueueCount);
    QueueRowsSum(gs, |xs|);
    GroupByTotal(xs, QueueOf);
  }

  lemma {:induction false} QueueRowsSum(gs: seq<Group<string, Interaction>>, total: nat)
    requires forall i :: 0 <= i < |gs| ==> 0 < |gs[i].members| <= total
    ensures SumOf(QueueRows(gs, total), QueueCount) == Total(gs)
  {
    if |gs| > 0 {
      QueueRowsSum(gs[1..], total);
      assert QueueRows(gs, total)[1..] == QueueRows(gs[1..], total);
    }
  }

  /** Each row is the stats of its queue, and every queue has its row. */
  lemma QueueDistributionRows(xs: seq<Interaction>)
    ensures forall p :: p in QueueDistribution(xs) ==>
              p.queue in KeySet(xs, QueueOf) && p == QueueStats(xs, p.queue)
    ensures forall q :: q in KeySet(xs, QueueOf) ==> QueueStats(xs, q) in QueueDistribution(xs)
  {
    var gs := GroupBy(xs, QueueOf);
    GroupsBounded(xs, QueueOf);
    var rows := QueueRows(gs, |xs|);
    var o := QueueDistribution(xs);
    assert forall p :: p in o <==> p in rows by {
      forall p ensures p in o <==> p in rows {
        assert p in o <==> p in multiset(o);
      }
    }
    forall p | p in rows ensures p.queue in KeySet(xs, QueueOf) && p == QueueStats(xs, p.queue) {
      var i :| 0 <= i < |rows| && rows[i] == p;
      GroupAt(xs, QueueOf, i);
    }
    forall q | q in KeySet(xs, QueueOf) ensures QueueStats(xs, q) in rows {
      var i := GroupIndex(xs, QueueOf, q);
      GroupAt(xs, QueueOf, i);
      assert rows[i] == QueueStats(xs, q);
    }
  }

  /** One queue's stats: its count, the rounded mean duration in minutes,
      and its rounded percentage of all interactions. */
  lemma QueueStatsSpec(xs: seq<Interaction>, q: string)
    requires q in KeySet(xs, QueueOf)
    ensures QueueStats(xs, q).queue == q
    ensures QueueStats(xs, q).interactions == |Select(xs, QueueOf, q)| > 0
    ensures var d := QueueStats(xs, q).interactions * MillisPerMinute;
      2 * d * QueueStats(xs, q).avgDuration - d <= 2 * SumOf(Select(xs, QueueOf, q), DurationOf)
        < 2 * d * QueueStats(xs, q).avgDuration + d
    ensures 2 * |xs| * QueueStats(xs, q).percentage - |xs| <= 200 * QueueStats(xs, q).interactions
              < 2 * |xs| * QueueStats(xs, q).percentage + |xs|
    ensures 0 <= QueueStats(xs, q).percentage <= 100
  {
    var x :| x in xs && QueueOf(x) == q;
    SelectMember(xs, QueueOf, q, x);
    PercentBounds(|Select(xs, QueueOf, q)|, |xs|);
  }

  function QueuePercent(p: QueuePerformance): int { p.percentage }

  function InQueue(q: string): Interaction
  {
    Interaction(0, Record("c", "agent", "customer", q, "voice", "Inbound", 0,
                          None, None, 0, 0, None, None))
  }

  /** Each percentage is rounded on its own, so together they can exceed
      100: one interaction in one queue and seven in another give 13 + 88. */
  lemma QueuePercentagesCanExceed100()
    ensures var xs := [InQueue("A"), InQueue("B"), InQueue("B"), InQueue("B"),
                       InQueue("B"), InQueue("B"), InQueue("B"), InQueue("B")];
      SumOf(QueueDistribution(xs), QueuePercent) == 101
  {
    assert RoundDiv(1 * 100, 8) == 13 by { assert 208 / 16 == 13; }
    assert RoundDiv(7 * 100, 8) == 88 by { assert 1408 / 16 == 88; }
    var a, b := InQueue("A"), InQueue("B");
    var t := [b, b, b, b, b, b, b];
    var xs := [a] + t;
    assert xs == [InQueue("A"), InQueue("B"), InQueue("B"), InQueue("B"),
                  InQueue("B"), InQueue("B"), InQueue("B"), InQueue("B")];
    assert KeySet(xs, QueueOf) == {"A", "B"} by {
      assert xs[0] == a && xs[1] == b;
      assert QueueOf(a) == "A" && QueueOf(b) == "B";
      forall y | y in xs ensures QueueOf(y) in {"A", "B"} {
      }
    }
    SelectCons(a, t, QueueOf, "A");
    SelectCons(a, t, QueueOf, "B");
    SelectNone(t, QueueOf, "A");
    SelectEvery(t, QueueOf, "B");
    QueueShare(xs, "A");
    QueueShare(xs, "B");
    TwoQueueSum(xs, "A", "B");
  }

  /** A queue's share read off its group. */
  lemma QueueShare(xs: seq<Interaction>, q: string)
    requires q in KeySet(xs, QueueOf)
    ensures QueueStats(xs, q).percentage == RoundDiv(|Select(xs, QueueOf, q)| * 100, |xs|)
  {
  }

  /** With exactly two queues the percentages add up to the two queues' own. */
  lemma TwoQueueSum(xs: seq<Interaction>, qa: string, qb: string)
    requires KeySet(xs, QueueOf) == {qa, qb} && qa != qb
    ensures SumOf(QueueDistribution(xs), QueuePercent)
         == QueueStats(xs, qa).percentage + QueueStats(xs, qb).percentage
  {
    var o := QueueDistribution(xs);
    QueueDistributionSpec(xs);
    QueueDistributionRows(xs);
    assert |o| == 2;
    assert o[0].queue != o[1].queue;
    assert o[0] in o && o[1] in o;
    SumOfPair(o, QueuePercent);
  }

  lemma SumOfPair<T>(s: seq<T>, f: T -> int)
    requires |s| == 2
    ensures SumOf(s, f) == f(s[0]) + f(s[1])
  {
    assert SumOf(s[1..], f) == f(s[1]) + SumOf(s[1..][1..], f);
    assert s[1..][1..] == [];
  }
}
