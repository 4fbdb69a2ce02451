/** The small text helpers of the dashboard: hour labels, the `m:ss`
    duration text, agent initials and the sorted option lists of the filter
    drop-downs. */
module Formatting {
  import opened Wrappers
  import opened Seqs
  import opened Text
  import opened Records

  /* ------------------------------------------------------------ padding */

  /** `s.padStart(2, '0')`. */
  function PadStart2(s: string): (r: string)
    ensures |r| == if |s| >= 2 then |s| else 2
    decreases if |s| >= 2 then 0 else 2 - |s|
  {
    if |s| >= 2 then s else PadStart2("0" + s)
  }

  /** The two decimal digits of a number below one hundred. */
  function TwoDigits(n: nat): (r: string)
    requires n < 100
    ensures |r| == 2 && IsDigit(r[0]) && IsDigit(r[1])
  {
    [DigitChar(n / 10), DigitChar(n % 10)]
  }

  /** Padding the decimal text of a number below one hundred gives its two
      digits. */
  lemma PadStart2OfSmall(n: nat)
    requires n < 100
    ensures PadStart2(NatToString(n)) == TwoDigits(n)
  {
    if n < 10 {
      assert NatToString(n) == [DigitChar(n)];
      assert PadStart2(NatToString(n)) == "0" + [DigitChar(n)];
    } else {
      assert NatToString(n / 10) == [DigitChar(n / 10)];
    }
  }

  /** The value of two digits. */
  lemma TwoDigitsValue(n: nat)
    requires n < 100
    ensures DigitsValue(TwoDigits(n)) == n
  {
    var d := TwoDigits(n);
    assert d[..1] == [DigitChar(n / 10)];
    assert d[..1][..0] == [];
    assert DigitsValue(d[..1]) == n / 10;
    assert DigitsValue(d) == (n / 10) * 10 + n % 10;
  }

  /** Two digits read back as their value. */
  lemma TwoDigitsParse(n: nat)
    requires n < 100
    ensures ParseInt(TwoDigits(n)) == Some(n)
  {
    var s := TwoDigits(n);
    TrimStartNoSpace(s);
    DigitPrefixOfDigits(s, "");
    assert s + "" == s;
    ParseIntNoSign(s, 2);
    assert s[..2] == s;
    TwoDigitsValue(n);
  }

  /* ------------------------------------------------------------- hours */

  /** `${h.toString().padStart(2, '0')}:00`, which is also the `"HH:mm"`
      text of the start of hour `h`. */
  function HourLabel(h: nat): (r: string)
    ensures |r| >= 5
  {
    PadStart2(NatToString(h)) + ":00"
  }

  lemma HourLabelDigits(h: nat)
    requires h < 24
    ensures HourLabel(h) == TwoDigits(h) + ":00"
  {
    PadStart2OfSmall(h);
  }

  /** Different hours of the day have different labels. */
  lemma HourLabelInjective(a: nat, b: nat)
    requires a < 24 && b < 24
    ensures HourLabel(a) == HourLabel(b) <==> a == b
  {
    HourLabelDigits(a);
    HourLabelDigits(b);
    if HourLabel(a) == HourLabel(b) {
      assert HourLabel(a)[0] == HourLabel(b)[0];
      assert HourLabel(a)[1] == HourLabel(b)[1];
      assert a / 10 == b / 10;
      assert a % 10 == b % 10;
    }
  }

  /** Labels of the hours of a day compare as the hours do. */
  lemma HourLabelOrder(a: nat, b: nat)
    requires a < b < 24
    ensures LexLess(HourLabel(a), HourLabel(b))
  {
    HourLabelDigits(a);
    HourLabelDigits(b);
    var x, y := HourLabel(a), HourLabel(b);
    if a / 10 == b / 10 {
      assert x[0] == y[0];
      assert x[1..][0] < y[1..][0];
    } else {
      assert x[0] < y[0];
    }
  }

  lemma HourLabelExamples()
    ensures HourLabel(7) == "07:00"
    ensures HourLabel(18) == "18:00"
  {
    HourLabelDigits(7);
    HourLabelDigits(18);
  }

  /* ---------------------------------------------------------- durations */

  /** Integer division rounding toward zero, as `Math.trunc(a / b)`. */
  function TruncDiv(a: int, b: nat): (q: int)
    requires b > 0
    ensures a >= 0 ==> q == a / b
    ensures a < 0 ==> q == -((-a) / b)
  {
    if a >= 0 then a / b else -((-a) / b)
  }

  /** Whole minutes of a duration: `Math.floor(ms / 1000 / 60)`. */
  function DurationMinutes(ms: int): int
  {
    ms / MillisPerMinute
  }

  /** Seconds part of a duration: `Math.floor((ms / 1000) % 60)`. The
      remainder of JavaScript takes the sign of the dividend, so a negative
      duration gives a negative seconds part. */
  function DurationSeconds(ms: int): int
  {
    (ms - MillisPerMinute * TruncDiv(ms, MillisPerMinute)) / MillisPerSecond
  }

  /** `formatDuration`: minutes, a colon, then the seconds padded to two
      characters. */
  function FormatDuration(ms: int): (r: string)
  {
    IntToString(DurationMinutes(ms)) + ":" + PadStart2(IntToString(DurationSeconds(ms)))
  }

  /** The seconds part lies between minus sixty and fifty-nine and has the
      sign of the duration. */
  lemma DurationSecondsRange(ms: int)
    ensures -60 <= DurationSeconds(ms) < 60
    ensures ms >= 0 ==> DurationSeconds(ms) >= 0
    ensures ms < 0 ==> DurationSeconds(ms) <= 0
  {
    var rem := ms - MillisPerMinute * TruncDiv(ms, MillisPerMinute);
    if ms >= 0 {
      assert rem == ms % 60000;
    } else {
      assert rem == -((-ms) % 60000);
    }
    assert -60000 < rem < 60000;
  }

  /** For a duration that is not negative the seconds part is the
      remainder of the whole seconds modulo sixty. */
  lemma DurationSecondsOfNatural(ms: nat)
    ensures DurationSeconds(ms) == (ms / MillisPerSecond) % 60
    ensures 60 * DurationMinutes(ms) + DurationSeconds(ms) == ms / MillisPerSecond
  {
    var q, r := ms / 60000, ms % 60000;
    var t, u := r / 1000, r % 1000;
    assert ms == 1000 * (60 * q + t) + u;
    assert ms / 1000 == 60 * q + t;
    assert 0 <= t < 60;
    assert (ms / 1000) % 60 == t;
    assert DurationSeconds(ms) == r / 1000;
  }

  /** A duration that is not negative is written as its whole minutes, a
      colon and exactly two digits of leftover seconds. */
  lemma FormatDurationOfNatural(ms: nat)
    ensures FormatDuration(ms) == NatToString(ms / MillisPerMinute) + ":" + TwoDigits((ms / MillisPerSecond) % 60)
  {
    DurationSecondsOfNatural(ms);
    PadStart2OfSmall((ms / MillisPerSecond) % 60);
  }

  /** Reading the text back: splitting at the colon gives the minutes and
      the seconds, and together they give the whole seconds again. */
  lemma {:induction false} FormatDurationRoundTrip(ms: nat)
    ensures |Split(FormatDuration(ms), ':')| == 2
    ensures ParseInt(Split(FormatDuration(ms), ':')[0]) == Some(ms / MillisPerMinute)
    ensures |Split(FormatDuration(ms), ':')[1]| == 2
    ensures ParseInt(Split(FormatDuration(ms), ':')[1]) == Some((ms / MillisPerSecond) % 60)
    ensures 60 * (ms / MillisPerMinute) + (ms / MillisPerSecond) % 60 == ms / MillisPerSecond
  {
    DurationSecondsOfNatural(ms);
    FormatDurationOfNatural(ms);
    var m := NatToString(ms / MillisPerMinute);
    var s := TwoDigits((ms / MillisPerSecond) % 60);
    SplitDuration(m, s);
    ParseIntOfNatural(ms / MillisPerMinute, "");
    assert m + "" == m;
    TwoDigitsParse((ms / MillisPerSecond) % 60);
  }

  lemma SplitDuration(m: string, s: string)
    requires forall i :: 0 <= i < |m| ==> IsDigit(m[i])
    requires forall i :: 0 <= i < |s| ==> IsDigit(s[i])
    ensures Split(m + ":" + s, ':') == [m, s]
  {
    assert ':' !in m by {
      forall i | 0 <= i < |m| ensures m[i] != ':' { assert IsDigit(m[i]); }
    }
    assert ':' !in s by {
      forall i | 0 <= i < |s| ensures s[i] != ':' { assert IsDigit(s[i]); }
    }
    assert m + ":" + s == m + [':'] + s;
    SplitPrefix(m, ':', s);
    SplitNoSep(s, ':');
  }

  /** A negative duration keeps the sign of the remainder in the seconds:
      minus one and a half seconds reads "-1:-2". */
  lemma FormatDurationOfNegative()
    ensures FormatDuration(-1500) == "-1:-2"
  {
    assert DurationMinutes(-1500) == -1;
    assert TruncDiv(-1500, MillisPerMinute) == 0;
    assert DurationSeconds(-1500) == -2;
    assert NatToString(1) == "1";
    assert NatToString(2) == "2";
  }

  /* ----------------------------------------------------------- initials */

  /** `part.charAt(0).toUpperCase()`: empty for an empty part. */
  function Initial(part: string): (r: string)
    ensures |r| <= 1
  {
    if |part| == 0 then "" else [UpperChar(part[0])]
  }

  /** `getAgentInitials`: the upper-cased first characters of the first two
      space-separated parts of the name. */
  function AgentInitials(name: string): (r: string)
  {
    Join(JsSlice(Map(Split(name, ' '), Initial), 0, 2), "")
  }

  lemma JoinShort(ps: seq<string>)
    requires |ps| <= 2
    requires forall i :: 0 <= i < |ps| ==> |ps[i]| <= 1
    ensures |Join(ps, "")| <= |ps|
    ensures forall c :: c in Join(ps, "") ==> exists i :: 0 <= i < |ps| && c in ps[i]
  {
    if |ps| == 2 {
      assert Join(ps, "") == ps[0] + ps[1] by {
        assert Join(ps[1..], "") == ps[1];
      }
    }
  }

  /** At most two characters, none of them a lower-case ASCII letter. */
  lemma AgentInitialsShape(name: string)
    ensures |AgentInitials(name)| <= 2
    ensures forall c :: c in AgentInitials(name) ==> !('a' <= c <= 'z')
  {
    var ps := JsSlice(Map(Split(name, ' '), Initial), 0, 2);
    var all := Map(Split(name, ' '), Initial);
    assert |ps| <= 2 by {
      if |all| >= 2 { assert ps == all[0..2]; } else { assert ps == all[0..|all|]; }
    }
    assert ps == all[..|ps|] by {
      if |all| >= 2 { assert ps == all[0..2]; } else { assert ps == all[0..|all|]; }
    }
    JoinShort(ps);
  }

  /** A single word gives its upper-cased first letter. */
  lemma AgentInitialsOfWord(w: string)
    requires |w| > 0 && ' ' !in w
    ensures AgentInitials(w) == [UpperChar(w[0])]
  {
    SplitNoSep(w, ' ');
    assert Map([w], Initial) == [[UpperChar(w[0])]];
  }

  /** A name of two or more words gives the initials of the first two. */
  lemma AgentInitialsOfWords(words: seq<string>)
    requires |words| >= 2 && |words[0]| > 0 && |words[1]| > 0
    requires forall i :: 0 <= i < |words| ==> ' ' !in words[i]
    ensures AgentInitials(Join(words, " ")) == [UpperChar(words[0][0]), UpperChar(words[1][0])]
  {
    SplitJoin(words, ' ');
    assert Split(Join(words, " "), ' ') == words;
    InitialsOfParts(words);
  }

  lemma InitialsOfParts(ps: seq<string>)
    requires |ps| >= 2 && |ps[0]| > 0 && |ps[1]| > 0
    ensures Join(JsSlice(Map(ps, Initial), 0, 2), "") == [UpperChar(ps[0][0]), UpperChar(ps[1][0])]
  {
    var all := Map(ps, Initial);
    var two := [[UpperChar(ps[0][0])], [UpperChar(ps[1][0])]];
    assert JsSlice(all, 0, 2) == all[0..2];
    assert all[0..2] == two;
    assert Join(two[1..], "") == two[1];
    assert Join(two, "") == two[0] + "" + two[1];
  }

  /* ------------------------------------------------------ option lists */

  /** `getUniqueValues`: the distinct non-empty values of one text field,
      sorted. */
  function UniqueValues<T>(items: seq<T>, field: T -> string): (r: seq<string>)
  {
    SortStrings(Distinct(Filter(Map(items, field), NonEmpty)))
  }

  /** The list is strictly ascending (so free of repeats) and holds exactly
      the non-empty values some item has. */
  lemma UniqueValuesSpec<T>(items: seq<T>, field: T -> string)
    ensures StrictlySorted(UniqueValues(items, field))
    ensures NoDups(UniqueValues(items, field))
    ensures forall v :: v in UniqueValues(items, field) <==>
      v != "" && exists i :: 0 <= i < |items| && field(items[i]) == v
  {
    var r := UniqueValues(items, field);
    forall i, j | 0 <= i < j < |r| ensures r[i] != r[j] {
      if r[i] == r[j] { LexIrreflexive(r[i]); }
    }
    var vs := Map(items, field);
    forall v ensures v in r <==> v != "" && exists i :: 0 <= i < |items| && field(items[i]) == v {
      if v in vs {
        var i :| 0 <= i < |vs| && vs[i] == v;
        assert field(items[i]) == v;
      }
      if exists i :: 0 <= i < |items| && field(items[i]) == v {
        var i :| 0 <= i < |items| && field(items[i]) == v;
        assert vs[i] == v;
      }
    }
  }

  /** Any strictly sorted list of those values is this list. */
  lemma UniqueValuesCanonical<T>(items: seq<T>, field: T -> string, s: seq<string>)
    requires StrictlySorted(s)
    requires forall v :: v in s <==> v != "" && exists i :: 0 <= i < |items| && field(items[i]) == v
    ensures UniqueValues(items, field) == s
  {
    UniqueValuesSpec(items, field);
    StrictlySortedUnique(UniqueValues(items, field), s);
  }
}
