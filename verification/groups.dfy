/** The `reduce((acc, x) => { acc[key(x)] ... }, {})` group-by the dashboard
    uses for every per-agent, per-queue, per-channel, per-hour and per-code
    rollup. A JavaScript object used as a dictionary lists its keys in the
    order they were first added, so the groups are kept in a sequence in
    first-seen order. */
module Groups {
  import opened Seqs

  /** The elements that share one key, in the order they were folded in. */
  datatype Group<K, T> = Group(key: K, members: seq<T>)

  function KeysOf<K, T>(gs: seq<Group<K, T>>): (r: seq<K>)
    ensures |r| == |gs|
    ensures forall i :: 0 <= i < |gs| ==> r[i] == gs[i].key
  {
    if |gs| == 0 then [] else [gs[0].key] + KeysOf(gs[1..])
  }

  /** One step of the fold: `x` goes to the group for `k`, which is created
      at the end when the key has not been seen. */
  function AddTo<K(==), T>(gs: seq<Group<K, T>>, x: T, k: K): (r: seq<Group<K, T>>)
    ensures |r| == |gs| || |r| == |gs| + 1
  {
    if |gs| == 0 then [Group(k, [x])]
    else if gs[0].key == k then [Group(k, gs[0].members + [x])] + gs[1..]
    else [gs[0]] + AddTo(gs[1..], x, k)
  }

  /** The whole fold, left to right. */
  function GroupBy<T, K(==)>(xs: seq<T>, key: T -> K): (gs: seq<Group<K, T>>)
    ensures |gs| <= |xs|
  {
    if |xs| == 0 then []
    else AddTo(GroupBy(xs[..|xs| - 1], key), xs[|xs| - 1], key(xs[|xs| - 1]))
  }

  /** No two groups share a key. */
  ghost predicate UniqueKeys<K, T>(gs: seq<Group<K, T>>)
  {
    forall i, j :: 0 <= i < j < |gs| ==> gs[i].key != gs[j].key
  }

  lemma UniqueKeysOf<K, T>(gs: seq<Group<K, T>>)
    requires NoDups(KeysOf(gs))
    ensures UniqueKeys(gs)
  {
    forall i, j | 0 <= i < j < |gs| ensures gs[i].key != gs[j].key {
      assert KeysOf(gs)[i] != KeysOf(gs)[j];
    }
  }

  lemma {:induction false} AddToPresent<K, T>(gs: seq<Group<K, T>>, x: T, k: K, j: nat)
    requires UniqueKeys(gs)
    requires j < |gs| && gs[j].key == k
    ensures AddTo(gs, x, k) == gs[j := Group(k, gs[j].members + [x])]
  {
    var g := Group(k, gs[j].members + [x]);
    if gs[0].key != k {
      var t := gs[1..];
      AddToPresent(t, x, k, j - 1);
      assert [gs[0]] + t[j - 1 := g] == gs[j := g];
    } else {
      assert j == 0;
    }
  }

  lemma {:induction false} AddToAbsent<K, T>(gs: seq<Group<K, T>>, x: T, k: K)
    requires k !in KeysOf(gs)
    ensures AddTo(gs, x, k) == gs + [Group(k, [x])]
  {
    if |gs| > 0 {
      assert KeysOf(gs)[0] == gs[0].key;
      assert forall i :: 0 <= i < |gs| - 1 ==> KeysOf(gs[1..])[i] == KeysOf(gs)[i + 1];
      AddToAbsent(gs[1..], x, k);
    }
  }

  lemma SelectNone<T, K>(s: seq<T>, key: T -> K, k: K)
    requires forall i :: 0 <= i < |s| ==> key(s[i]) != k
    ensures Select(s, key, k) == []
  {
    if |s| > 0 {
      SelectNone(s[1..], key, k);
    }
  }

  lemma SelectEvery<T, K>(s: seq<T>, key: T -> K, k: K)
    requires forall i :: 0 <= i < |s| ==> key(s[i]) == k
    ensures Select(s, key, k) == s
  {
    if |s| > 0 {
      SelectEvery(s[1..], key, k);
      assert s == [s[0]] + s[1..];
    }
  }

  /** `gs` is the grouping of `xs`: one group per distinct key in first-seen
      order, each holding exactly the elements with that key in input order. */
  ghost predicate GroupsOf<T(!new), K(!new)>(xs: seq<T>, key: T -> K, gs: seq<Group<K, T>>)
  {
    && KeysOf(gs) == Distinct(Map(xs, key))
    && forall i :: 0 <= i < |gs| ==> gs[i].members == Select(xs, key, gs[i].key)
  }

  lemma GroupByStep<T, K>(p: seq<T>, x: T, key: T -> K)
    ensures GroupBy(p + [x], key) == AddTo(GroupBy(p, key), x, key(x))
  {
    assert (p + [x])[..|p|] == p;
  }

  lemma MapSnoc<T, K>(p: seq<T>, x: T, key: T -> K)
    ensures Map(p + [x], key) == Map(p, key) + [key(x)]
  {
    MapAppend(p, [x], key);
  }

  lemma SelectSnoc<T, K>(p: seq<T>, x: T, key: T -> K, k: K)
    ensures Select(p + [x], key, k) == Select(p, key, k) + (if key(x) == k then [x] else [])
  {
    SelectAppend(p, [x], key, k);
  }

  /** Folding in an element whose key already has a group. */
  lemma AddToSeen<T(!new), K(!new)>(p: seq<T>, x: T, key: T -> K, gp: seq<Group<K, T>>)
    requires GroupsOf(p, key, gp)
    requires key(x) in KeysOf(gp)
    ensures GroupsOf(p + [x], key, AddTo(gp, x, key(x)))
  {
    var k := key(x);
    MapSnoc(p, x, key);
    DistinctSnoc(Map(p, key), k);
    var j :| 0 <= j < |gp| && KeysOf(gp)[j] == k;
    UniqueKeysOf(gp);
    AddToPresent(gp, x, k, j);
    var g := Group(k, gp[j].members + [x]);
    var r := gp[j := g];
    KeysOfUpdate(gp, j, g);
    forall i | 0 <= i < |r| ensures r[i].members == Select(p + [x], key, r[i].key) {
      SelectSnoc(p, x, key, r[i].key);
      if i != j {
        assert r[i] == gp[i] && gp[i].key != k;
      }
    }
  }

  lemma KeysOfUpdate<K, T>(gs: seq<Group<K, T>>, j: nat, g: Group<K, T>)
    requires j < |gs| && g.key == gs[j].key
    ensures KeysOf(gs[j := g]) == KeysOf(gs)
  {
    assert forall i :: 0 <= i < |gs| ==> KeysOf(gs[j := g])[i] == KeysOf(gs)[i];
  }

  /** Folding in an element whose key is new. */
  lemma AddToUnseen<T(!new), K(!new)>(p: seq<T>, x: T, key: T -> K, gp: seq<Group<K, T>>)
    requires GroupsOf(p, key, gp)
    requires key(x) !in KeysOf(gp)
    ensures GroupsOf(p + [x], key, AddTo(gp, x, key(x)))
  {
    var k := key(x);
    MapSnoc(p, x, key);
    DistinctSnoc(Map(p, key), k);
    AddToAbsent(gp, x, k);
    var r := gp + [Group(k, [x])];
    assert KeysOf(r) == KeysOf(gp) + [k];
    forall i | 0 <= i < |p| ensures key(p[i]) != k {
      assert Map(p, key)[i] == key(p[i]);
    }
    SelectNone(p, key, k);
    forall i | 0 <= i < |r| ensures r[i].members == Select(p + [x], key, r[i].key) {
      SelectSnoc(p, x, key, r[i].key);
    }
  }

  /** The fold computes the grouping. */
  lemma {:induction false} GroupByCorrect<T(!new), K(!new)>(xs: seq<T>, key: T -> K)
    ensures GroupsOf(xs, key, GroupBy(xs, key))
  {
    if |xs| > 0 {
      var p, x := xs[..|xs| - 1], xs[|xs| - 1];
      assert xs == p + [x];
      GroupByCorrect(p, key);
      GroupByStep(p, x, key);
      if key(x) in KeysOf(GroupBy(p, key)) {
        AddToSeen(p, x, key, GroupBy(p, key));
      } else {
        AddToUnseen(p, x, key, GroupBy(p, key));
      }
    }
  }

  /** `acc[k] || 0` on a tally: the size of the group for `k`, 0 without one. */
  function SizeOf<K(==), T>(gs: seq<Group<K, T>>, k: K): nat
  {
    if |gs| == 0 then 0
    else if gs[0].key == k then |gs[0].members|
    else SizeOf(gs[1..], k)
  }

  lemma {:induction false} SizeOfAt<K, T>(gs: seq<Group<K, T>>, k: K, j: nat)
    requires UniqueKeys(gs)
    requires j < |gs| && gs[j].key == k
    ensures SizeOf(gs, k) == |gs[j].members|
  {
    if gs[0].key != k {
      SizeOfAt(gs[1..], k, j - 1);
    } else {
      assert j == 0;
    }
  }

  lemma {:induction false} SizeOfAbsent<K, T>(gs: seq<Group<K, T>>, k: K)
    requires k !in KeysOf(gs)
    ensures SizeOf(gs, k) == 0
  {
    if |gs| > 0 {
      assert KeysOf(gs)[0] == gs[0].key;
      assert KeysOf(gs[1..]) == KeysOf(gs)[1..];
      SizeOfAbsent(gs[1..], k);
    }
  }

  /** Looking a key up in the tally counts the elements carrying it. */
  lemma SizeOfGroupBy<T(!new), K(!new)>(xs: seq<T>, key: T -> K, k: K)
    ensures SizeOf(GroupBy(xs, key), k) == |Select(xs, key, k)|
  {
    var gs := GroupBy(xs, key);
    GroupByCorrect(xs, key);
    if k in KeysOf(gs) {
      var j :| 0 <= j < |gs| && KeysOf(gs)[j] == k;
      UniqueKeysOf(gs);
      SizeOfAt(gs, k, j);
    } else {
      SizeOfAbsent(gs, k);
      forall i | 0 <= i < |xs| ensures key(xs[i]) != k {
        assert Map(xs, key)[i] == key(xs[i]);
      }
      SelectNone(xs, key, k);
    }
  }

  /** The number of elements held by all groups together. */
  function Total<K, T>(gs: seq<Group<K, T>>): nat
  {
    if |gs| == 0 then 0 else |gs[0].members| + Total(gs[1..])
  }

  lemma {:induction false} AddToTotal<K, T>(gs: seq<Group<K, T>>, x: T, k: K)
    ensures Total(AddTo(gs, x, k)) == Total(gs) + 1
  {
    if |gs| > 0 && gs[0].key != k {
      AddToTotal(gs[1..], x, k);
      assert AddTo(gs, x, k)[1..] == AddTo(gs[1..], x, k);
    } else if |gs| > 0 {
      assert AddTo(gs, x, k)[1..] == gs[1..];
    }
  }

  /** Every element lands in exactly one group. */
  lemma {:induction false} GroupByTotal<T, K>(xs: seq<T>, key: T -> K)
    ensures Total(GroupBy(xs, key)) == |xs|
  {
    if |xs| > 0 {
      GroupByTotal(xs[..|xs| - 1], key);
      AddToTotal(GroupBy(xs[..|xs| - 1], key), xs[|xs| - 1], key(xs[|xs| - 1]));
    }
  }

  /** No group is empty. */
  lemma GroupsNonEmpty<T(!new), K(!new)>(xs: seq<T>, key: T -> K)
    ensures forall i :: 0 <= i < |GroupBy(xs, key)| ==> |GroupBy(xs, key)[i].members| > 0
  {
    var gs := GroupBy(xs, key);
    GroupByCorrect(xs, key);
    forall i | 0 <= i < |gs| ensures |gs[i].members| > 0 {
      assert gs[i].key in Distinct(Map(xs, key));
      var j :| 0 <= j < |xs| && Map(xs, key)[j] == gs[i].key;
      SelectMember(xs, key, gs[i].key, xs[j]);
    }
  }

  /** The distinct keys among `xs`. */
  ghost function KeySet<T, K>(xs: seq<T>, key: T -> K): set<K>
  {
    set x | x in xs :: key(x)
  }

  lemma DistinctKeySet<T(!new), K(!new)>(xs: seq<T>, key: T -> K)
    ensures (set k | k in Distinct(Map(xs, key))) == KeySet(xs, key)
  {
    var ks := Map(xs, key);
    forall k ensures k in Distinct(ks) <==> k in KeySet(xs, key) {
      if k in ks {
        var i :| 0 <= i < |ks| && ks[i] == k;
        assert xs[i] in xs;
      }
      if k in KeySet(xs, key) {
        var x :| x in xs && key(x) == k;
        var i :| 0 <= i < |xs| && xs[i] == x;
        assert ks[i] == k;
      }
    }
  }

  /** One group per distinct key, no key twice. */
  lemma GroupByCount<T(!new), K(!new)>(xs: seq<T>, key: T -> K)
    ensures |GroupBy(xs, key)| == |KeySet(xs, key)|
    ensures UniqueKeys(GroupBy(xs, key))
  {
    GroupByCorrect(xs, key);
    DistinctKeySet(xs, key);
    NoDupsCard(Distinct(Map(xs, key)));
    UniqueKeysOf(GroupBy(xs, key));
  }

  /** The group at `i` holds exactly the elements with its key. */
  lemma GroupAt<T(!new), K(!new)>(xs: seq<T>, key: T -> K, i: nat)
    requires i < |GroupBy(xs, key)|
    ensures GroupBy(xs, key)[i].key in KeySet(xs, key)
    ensures GroupBy(xs, key)[i] == Group(GroupBy(xs, key)[i].key, Select(xs, key, GroupBy(xs, key)[i].key))
  {
    GroupByCorrect(xs, key);
    DistinctKeySet(xs, key);
    assert GroupBy(xs, key)[i].key == Distinct(Map(xs, key))[i];
  }

  /** Every key of `xs` has its group. */
  lemma GroupIndex<T(!new), K(!new)>(xs: seq<T>, key: T -> K, k: K) returns (i: nat)
    requires k in KeySet(xs, key)
    ensures i < |GroupBy(xs, key)| && GroupBy(xs, key)[i].key == k
  {
    GroupByCorrect(xs, key);
    DistinctKeySet(xs, key);
    assert k in Distinct(Map(xs, key));
    i :| 0 <= i < |GroupBy(xs, key)| && KeysOf(GroupBy(xs, key))[i] == k;
  }
}
