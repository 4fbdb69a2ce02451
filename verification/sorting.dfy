/** The stable `Array.prototype.sort` the dashboard uses with comparators of
    the shape `aVal < bVal ? -1 : aVal > bVal ? 1 : 0` (or `b - a`), modelled
    as an insertion sort on keys that are either numbers or strings. */
module Sorting {
  import Seqs
  import Text

  /** What a comparator compares: a number (instants, durations, counts) or
      a string (compared with JavaScript's `<`). */
  datatype SortKey = Num(n: int) | Str(s: string)

  datatype Direction = Asc | Desc

  /** `a < b` on keys; a field only ever yields keys of one kind, and numbers
      are put before strings so that the order is total. */
  predicate KeyLess(a: SortKey, b: SortKey)
  {
    match (a, b)
    case (Num(x), Num(y)) => x < y
    case (Str(x), Str(y)) => Text.LexLess(x, y)
    case (Num(_), Str(_)) => true
    case (Str(_), Num(_)) => false
  }

  /** The comparator returns a negative number: `a` goes before `b`. */
  predicate Precedes(a: SortKey, b: SortKey, d: Direction)
  {
    if d == Asc then KeyLess(a, b) else KeyLess(b, a)
  }

  lemma PrecedesIrreflexive(a: SortKey, d: Direction)
    ensures !Precedes(a, a, d)
  {
    if a.Str? {
      Text.LexIrreflexive(a.s);
    }
  }

  lemma PrecedesAsymmetric(a: SortKey, b: SortKey, d: Direction)
    requires Precedes(a, b, d)
    ensures !Precedes(b, a, d)
  {
    if a.Str? && b.Str? {
      if d == Asc {
        Text.LexAsymmetric(a.s, b.s);
      } else {
        Text.LexAsymmetric(b.s, a.s);
      }
    }
  }

  lemma PrecedesTransitive(a: SortKey, b: SortKey, c: SortKey, d: Direction)
    requires Precedes(a, b, d) && Precedes(b, c, d)
    ensures Precedes(a, c, d)
  {
    if a.Str? && b.Str? && c.Str? {
      if d == Asc {
        Text.LexTransitive(a.s, b.s, c.s);
      } else {
        Text.LexTransitive(c.s, b.s, a.s);
      }
    }
  }

  lemma PrecedesTotal(a: SortKey, b: SortKey, d: Direction)
    ensures a == b || Precedes(a, b, d) || Precedes(b, a, d)
  {
    if a.Str? && b.Str? && a.s != b.s {
      Text.LexTotal(a.s, b.s);
    }
  }

  /** No later element strictly precedes an earlier one. */
  ghost predicate SortedBy<T>(s: seq<T>, key: T -> SortKey, d: Direction)
  {
    forall i, j :: 0 <= i < j < |s| ==> !Precedes(key(s[j]), key(s[i]), d)
  }

  /** `x` placed after the elements of `s` that strictly precede it. */
  function Insert<T(!new)>(x: T, s: seq<T>, key: T -> SortKey, d: Direction): (r: seq<T>)
    ensures multiset(r) == multiset{x} + multiset(s)
    ensures |r| == |s| + 1
  {
    if |s| == 0 then [x]
    else if Precedes(key(s[0]), key(x), d) then
      var rest := Insert(x, s[1..], key, d);
      assert s == [s[0]] + s[1..];
      [s[0]] + rest
    else [x] + s
  }

  lemma {:induction false} InsertSorted<T(!new)>(x: T, s: seq<T>, key: T -> SortKey, d: Direction)
    requires SortedBy(s, key, d)
    ensures SortedBy(Insert(x, s, key, d), key, d)
  {
    var r := Insert(x, s, key, d);
    if |s| == 0 {
    } else if Precedes(key(s[0]), key(x), d) {
      var rest := Insert(x, s[1..], key, d);
      InsertSorted(x, s[1..], key, d);
      forall j | 0 < j < |r| ensures !Precedes(key(r[j]), key(s[0]), d) {
        assert r[j] == rest[j - 1];
        assert r[j] in multiset(rest);
        if r[j] == x {
          PrecedesAsymmetric(key(s[0]), key(x), d);
        } else {
          assert r[j] in multiset(s[1..]);
          var m :| 0 <= m < |s[1..]| && s[1..][m] == r[j];
          assert s[m + 1] == r[j];
        }
      }
    } else {
      forall j | 0 <= j < |s| ensures !Precedes(key(s[j]), key(x), d) {
        if j > 0 && Precedes(key(s[j]), key(x), d) && key(s[j]) != key(s[0]) {
          PrecedesTotal(key(s[j]), key(s[0]), d);
          PrecedesTransitive(key(s[0]), key(s[j]), key(x), d);
        }
      }
      assert forall j :: 0 < j < |r| ==> r[j] == s[j - 1];
    }
  }

  /** The stable sort: `[...s].sort(comparator)`. */
  function SortBy<T(!new)>(s: seq<T>, key: T -> SortKey, d: Direction): (r: seq<T>)
    ensures multiset(r) == multiset(s)
    ensures |r| == |s|
  {
    if |s| == 0 then []
    else
      assert s == [s[0]] + s[1..];
      Insert(s[0], SortBy(s[1..], key, d), key, d)
  }

  /** The sort's output is in order. */
  lemma {:induction false} SortBySorted<T(!new)>(s: seq<T>, key: T -> SortKey, d: Direction)
    ensures SortedBy(SortBy(s, key, d), key, d)
  {
    if |s| > 0 {
      SortBySorted(s[1..], key, d);
      InsertSorted(s[0], SortBy(s[1..], key, d), key, d);
    }
  }

  /** Moving an element with key `k` past one whose key differs from `k`
      (or the other way round) leaves the `k`-elements unchanged. */
  lemma SelectPast<T(!new)>(y: T, x: T, rest: seq<T>, t: seq<T>, key: T -> SortKey, k: SortKey)
    requires !(key(x) == k && key(y) == k)
    requires Seqs.Select(rest, key, k) == (if key(x) == k then [x] else []) + Seqs.Select(t, key, k)
    ensures Seqs.Select([y] + rest, key, k) == (if key(x) == k then [x] else []) + Seqs.Select([y] + t, key, k)
  {
    Seqs.SelectCons(y, rest, key, k);
    Seqs.SelectCons(y, t, key, k);
  }

  lemma {:induction false} InsertSelect<T(!new)>(x: T, s: seq<T>, key: T -> SortKey, d: Direction, k: SortKey)
    ensures Seqs.Select(Insert(x, s, key, d), key, k)
         == (if key(x) == k then [x] else []) + Seqs.Select(s, key, k)
  {
    if |s| > 0 && Precedes(key(s[0]), key(x), d) {
      InsertSelect(x, s[1..], key, d, k);
      PrecedesIrreflexive(key(x), d);
      assert s == [s[0]] + s[1..];
      SelectPast(s[0], x, Insert(x, s[1..], key, d), s[1..], key, k);
    } else {
      assert Insert(x, s, key, d) == [x] + s;
      Seqs.SelectCons(x, s, key, k);
    }
  }

  /** Stability: for every key, the elements carrying it keep their relative
      order (ties are not reordered), so in particular none is lost or added. */
  lemma {:induction false} SortByStable<T(!new)>(s: seq<T>, key: T -> SortKey, d: Direction, k: SortKey)
    ensures Seqs.Select(SortBy(s, key, d), key, k) == Seqs.Select(s, key, k)
  {
    if |s| > 0 {
      SortByStable(s[1..], key, d, k);
      InsertSelect(s[0], SortBy(s[1..], key, d), key, d, k);
    }
  }

  /** Two sorted sequences that each contain the other's first element start
      with the same key. */
  lemma SortedHeadsShareKey<T>(a: seq<T>, b: seq<T>, key: T -> SortKey, d: Direction)
    requires SortedBy(a, key, d) && SortedBy(b, key, d)
    requires |a| > 0 && |b| > 0 && a[0] in b && b[0] in a
    ensures key(a[0]) == key(b[0])
  {
    var i :| 0 <= i < |b| && b[i] == a[0];
    var j :| 0 <= j < |a| && a[j] == b[0];
    PrecedesIrreflexive(key(a[0]), d);
    PrecedesIrreflexive(key(b[0]), d);
    assert !Precedes(key(b[i]), key(b[0]), d);
    assert !Precedes(key(a[j]), key(a[0]), d);
    PrecedesTotal(key(a[0]), key(b[0]), d);
  }

  /** A sorted arrangement that keeps every key's elements in their input
      order is unique: it is the one the sort produces. */
  lemma {:induction false} SortedStableUnique<T(!new)>(a: seq<T>, b: seq<T>, key: T -> SortKey, d: Direction)
    requires SortedBy(a, key, d) && SortedBy(b, key, d)
    requires forall k :: Seqs.Select(a, key, k) == Seqs.Select(b, key, k)
    ensures a == b
  {
    if |a| > 0 {
      Seqs.SelectMember(a, key, key(a[0]), a[0]);
      Seqs.SelectMember(b, key, key(a[0]), a[0]);
    }
    if |b| > 0 {
      Seqs.SelectMember(b, key, key(b[0]), b[0]);
      Seqs.SelectMember(a, key, key(b[0]), b[0]);
    }
    if |a| > 0 && |b| > 0 {
      var ka, kb := key(a[0]), key(b[0]);
      SortedHeadsShareKey(a, b, key, d);
      assert kb == ka;
      assert a == [a[0]] + a[1..] && b == [b[0]] + b[1..];
      assert a[0] == b[0] by {
        assert Seqs.Select(a, key, ka) == Seqs.Select(b, key, ka);
        Seqs.SelectCons(a[0], a[1..], key, ka);
        Seqs.SelectCons(b[0], b[1..], key, ka);
        assert ([a[0]] + Seqs.Select(a[1..], key, ka))[0] == a[0];
      }
      forall k ensures Seqs.Select(a[1..], key, k) == Seqs.Select(b[1..], key, k) {
        assert Seqs.Select(a, key, k) == Seqs.Select(b, key, k);
        Seqs.SelectCons(a[0], a[1..], key, k);
        Seqs.SelectCons(b[0], b[1..], key, k);
        if k == ka {
          assert Seqs.Select(a[1..], key, k) == ([a[0]] + Seqs.Select(a[1..], key, k))[1..];
          assert Seqs.Select(b[1..], key, k) == ([b[0]] + Seqs.Select(b[1..], key, k))[1..];
        } else {
          assert Seqs.Select(a, key, k) == Seqs.Select(a[1..], key, k);
          assert Seqs.Select(b, key, k) == Seqs.Select(b[1..], key, k);
        }
      }
      SortedStableUnique(a[1..], b[1..], key, d);
      assert a == [a[0]] + a[1..] && b == [b[0]] + b[1..];
    }
  }

  /** Sorting what is already sorted changes nothing. */
  lemma SortByOfSorted<T(!new)>(s: seq<T>, key: T -> SortKey, d: Direction)
    requires SortedBy(s, key, d)
    ensures SortBy(s, key, d) == s
  {
    SortBySorted(s, key, d);
    forall k ensures Seqs.Select(SortBy(s, key, d), key, k) == Seqs.Select(s, key, k) {
      SortByStable(s, key, d, k);
    }
    SortedStableUnique(SortBy(s, key, d), s, key, d);
  }

  /** Sorting twice is sorting once. */
  lemma SortByIdempotent<T(!new)>(s: seq<T>, key: T -> SortKey, d: Direction)
    ensures SortBy(SortBy(s, key, d), key, d) == SortBy(s, key, d)
  {
    SortBySorted(s, key, d);
    SortByOfSorted(SortBy(s, key, d), key, d);
  }
}
