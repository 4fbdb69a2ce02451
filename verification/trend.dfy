/** The hourly trend of the dashboard: interactions counted by the hour in
    which they started, reported for every hour from 07:00 to 18:00. */
module Trend {
  import opened Seqs
  import opened Records
  import opened Groups
  import opened Formatting
  import Text

  const FirstHour: nat := 7
  const LastHour: nat := 18

  /** The hour of the day in which an interaction started. */
  function StartHour(x: Interaction): int { HourOf(x.startTime()) }

  /** The `"HH:mm"` text of the start of that hour, the tally's key. */
  function StartHourLabel(x: Interaction): string { HourLabel(HourOf(x.startTime())) }

  /** An interaction the trend reports: it started between 07:00 and 18:59. */
  predicate InTrendHours(x: Interaction)
  {
    FirstHour <= StartHour(x) <= LastHour
  }

  datatype HourCount = HourCount(hour: string, count: nat)

  function CountOf(c: HourCount): int { c.count }

  /** The rows for hours `h` to 18, each reading its count from the tally
      and falling back to zero. */
  function TrendFrom(tally: seq<Group<string, Interaction>>, h: nat): (r: seq<HourCount>)
    decreases LastHour + 1 - h
  {
    if h > LastHour then []
    else [HourCount(HourLabel(h), SizeOf(tally, HourLabel(h)))] + TrendFrom(tally, h + 1)
  }

  /** `getHourlyTrend`. */
  function HourlyTrend(xs: seq<Interaction>): seq<HourCount>
  {
    TrendFrom(GroupBy(xs, StartHourLabel), FirstHour)
  }

  /* --------------------------------------------------------------- rows */

  lemma {:induction false} TrendFromAt(tally: seq<Group<string, Interaction>>, h: nat, i: nat)
    requires h <= LastHour + 1
    ensures |TrendFrom(tally, h)| == LastHour + 1 - h
    ensures i < LastHour + 1 - h ==>
      TrendFrom(tally, h)[i] == HourCount(HourLabel(h + i), SizeOf(tally, HourLabel(h + i)))
    decreases LastHour + 1 - h
  {
    if h <= LastHour {
      if i == 0 {
        TrendFromAt(tally, h + 1, 0);
      } else {
        TrendFromAt(tally, h + 1, i - 1);
      }
    }
  }

  /** Grouping by the hour label collects the interactions of that hour. */
  lemma {:induction false} SelectLabelHour(xs: seq<Interaction>, h: nat)
    requires h < 24
    ensures Select(xs, StartHourLabel, HourLabel(h)) == Select(xs, StartHour, h)
  {
    if |xs| > 0 {
      HourLabelInjective(StartHour(xs[0]), h);
      SelectLabelHour(xs[1..], h);
    }
  }

  /** Twelve rows, 07:00 to 18:00, each holding the number of interactions
      that started in that hour (zero when none did). */
  lemma HourlyTrendSpec(xs: seq<Interaction>)
    ensures |HourlyTrend(xs)| == 12
    ensures forall i :: 0 <= i < 12 ==> HourlyTrend(xs)[i].hour == HourLabel(FirstHour + i)
    ensures forall i :: 0 <= i < 12 ==> HourlyTrend(xs)[i].count == |Select(xs, StartHour, FirstHour + i)|
  {
    TrendFromAt(GroupBy(xs, StartHourLabel), FirstHour, 0);
    forall i | 0 <= i < 12
      ensures HourlyTrend(xs)[i].hour == HourLabel(FirstHour + i)
      ensures HourlyTrend(xs)[i].count == |Select(xs, StartHour, FirstHour + i)|
    {
      HourlyTrendRow(xs, i);
    }
  }

  lemma HourlyTrendRow(xs: seq<Interaction>, i: nat)
    requires i < 12
    ensures |HourlyTrend(xs)| == 12
    ensures HourlyTrend(xs)[i].hour == HourLabel(FirstHour + i)
    ensures HourlyTrend(xs)[i].count == |Select(xs, StartHour, FirstHour + i)|
  {
    var tally := GroupBy(xs, StartHourLabel);
    var h := FirstHour + i;
    TrendFromAt(tally, FirstHour, i);
    assert HourlyTrend(xs)[i].count == SizeOf(tally, HourLabel(h));
    SizeOfGroupBy(xs, StartHourLabel, HourLabel(h));
    SelectLabelHour(xs, h);
  }

  /** The rows run from "07:00" to "18:00" in ascending label order. */
  lemma HourlyTrendLabels(xs: seq<Interaction>)
    ensures |HourlyTrend(xs)| == 12
    ensures HourlyTrend(xs)[0].hour == "07:00"
    ensures HourlyTrend(xs)[11].hour == "18:00"
    ensures forall i, j :: 0 <= i < j < 12 ==> Text.LexLess(HourlyTrend(xs)[i].hour, HourlyTrend(xs)[j].hour)
  {
    HourlyTrendSpec(xs);
    HourLabelExamples();
    forall i, j | 0 <= i < j < 12
      ensures Text.LexLess(HourlyTrend(xs)[i].hour, HourlyTrend(xs)[j].hour)
    {
      HourLabelOrder(FirstHour + i, FirstHour + j);
    }
  }

  /* -------------------------------------------------------------- totals */

  /** The interactions that started in hours `h` to 18. */
  ghost function CountFrom(xs: seq<Interaction>, h: nat): nat
    decreases LastHour + 1 - h
  {
    if h > LastHour then 0 else |Select(xs, StartHour, h)| + CountFrom(xs, h + 1)
  }

  lemma {:induction false} TrendFromSum(xs: seq<Interaction>, h: nat)
    requires h <= LastHour + 1
    ensures SumOf(TrendFrom(GroupBy(xs, StartHourLabel), h), CountOf) == CountFrom(xs, h)
    decreases LastHour + 1 - h
  {
    if h <= LastHour {
      var tally := GroupBy(xs, StartHourLabel);
      var r := TrendFrom(tally, h);
      assert r[1..] == TrendFrom(tally, h + 1);
      TrendFromSum(xs, h + 1);
      SizeOfGroupBy(xs, StartHourLabel, HourLabel(h));
      SelectLabelHour(xs, h);
    }
  }

  lemma {:induction false} CountFromCons(y: Interaction, t: seq<Interaction>, h: nat)
    ensures CountFrom([y] + t, h) == CountFrom(t, h) + (if h <= StartHour(y) <= LastHour then 1 else 0)
    decreases LastHour + 1 - h
  {
    if h <= LastHour {
      SelectCons(y, t, StartHour, h);
      CountFromCons(y, t, h + 1);
    }
  }

  lemma {:induction false} CountFromAll(xs: seq<Interaction>)
    ensures CountFrom(xs, FirstHour) == CountIf(xs, InTrendHours)
  {
    if |xs| == 0 {
      CountFromNone(xs, FirstHour);
    } else {
      assert xs == [xs[0]] + xs[1..];
      CountFromCons(xs[0], xs[1..], FirstHour);
      CountFromAll(xs[1..]);
    }
  }

  lemma {:induction false} CountFromNone(xs: seq<Interaction>, h: nat)
    requires |xs| == 0
    ensures CountFrom(xs, h) == 0
    decreases LastHour + 1 - h
  {
    if h <= LastHour {
      CountFromNone(xs, h + 1);
    }
  }

  /** The counts add up to the interactions that started between 07:00 and
      18:59; the rest of the day is not reported. */
  lemma HourlyTrendTotal(xs: seq<Interaction>)
    ensures SumOf(HourlyTrend(xs), CountOf) == CountIf(xs, InTrendHours)
    ensures SumOf(HourlyTrend(xs), CountOf) <= |xs|
  {
    TrendFromSum(xs, FirstHour);
    CountFromAll(xs);
  }
}
