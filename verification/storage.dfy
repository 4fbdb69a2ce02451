/** The server's in-memory interaction store: a map from id to interaction,
    kept in insertion order, and the counter the next id comes from. */
module Storage {
  import opened Wrappers
  import opened Seqs
  import opened Text
  import opened Records
  import Sorting

  /** The store: the map's values in insertion order, and the counter. */
  datatype Store = Store(items: seq<Interaction>, nextId: int)

  /** The store as the server starts it. */
  const Empty := Store([], 1)

  function IdOf(x: Interaction): int { x.id }

  /** What the store keeps: the counter is at least 1, every stored id lies
      between 1 and the counter (exclusive), and no two entries share an id. */
  ghost predicate Valid(st: Store)
  {
    && st.nextId >= 1
    && (forall i :: 0 <= i < |st.items| ==> 1 <= st.items[i].id < st.nextId)
    && UniqueBy(st.items, IdOf)
  }

  /** `Map.set`: an existing id is overwritten in place, a new one is
      appended. */
  function Put(items: seq<Interaction>, x: Interaction): (r: seq<Interaction>)
  {
    if |items| == 0 then [x]
    else if items[0].id == x.id then [x] + items[1..]
    else [items[0]] + Put(items[1..], x)
  }

  lemma {:induction false} PutFresh(items: seq<Interaction>, x: Interaction)
    requires forall i :: 0 <= i < |items| ==> items[i].id != x.id
    ensures Put(items, x) == items + [x]
  {
    if |items| > 0 {
      PutFresh(items[1..], x);
      assert items == [items[0]] + items[1..];
    }
  }

  /** The optional fields as stored: a falsy value becomes null. */
  function Normalize(r: Record): Record
  {
    r.(wrapUp := NullIfEmpty(r.wrapUp), flow := NullIfEmpty(r.flow),
       ani := NullIfEmpty(r.ani), dnis := NullIfEmpty(r.dnis))
  }

  /** `createInteraction`: the counter's value is the new id, then the
      counter moves on. */
  function Create(st: Store, r: Record): (Store, Interaction)
  {
    var x := Interaction(st.nextId, Normalize(r));
    (Store(Put(st.items, x), st.nextId + 1), x)
  }

  /** The new interaction is the record with null for every empty optional
      field and the old counter as its id; it is appended and the store
      stays valid. */
  lemma CreateSpec(st: Store, r: Record)
    requires Valid(st)
    ensures Create(st, r).1.id == st.nextId
    ensures Create(st, r).1.rec.(wrapUp := r.wrapUp, flow := r.flow, ani := r.ani, dnis := r.dnis) == r
    ensures Create(st, r).1.rec.wrapUp.Some? <==> Truthy(r.wrapUp)
    ensures Create(st, r).1.rec.flow.Some? <==> Truthy(r.flow)
    ensures Create(st, r).1.rec.ani.Some? <==> Truthy(r.ani)
    ensures Create(st, r).1.rec.dnis.Some? <==> Truthy(r.dnis)
    ensures Create(st, r).0.items == st.items + [Create(st, r).1]
    ensures Create(st, r).0.nextId == st.nextId + 1
    ensures Valid(Create(st, r).0)
  {
    var x := Create(st, r).1;
    PutFresh(st.items, x);
    var items := st.items + [x];
    forall i, j | 0 <= i < j < |items| ensures IdOf(items[i]) != IdOf(items[j]) {
      if j == |st.items| {
        assert items[i] == st.items[i];
      }
    }
  }

  /** `createManyInteractions`: the records created one after another. */
  method CreateMany(st: Store, rs: seq<Record>) returns (st': Store, created: seq<Interaction>)
    requires Valid(st)
    ensures Valid(st')
    ensures |created| == |rs|
    ensures forall i :: 0 <= i < |rs| ==> created[i] == Interaction(st.nextId + i, Normalize(rs[i]))
    ensures st'.items == st.items + created
    ensures st'.nextId == st.nextId + |rs|
  {
    st' := st;
    created := [];
    var k := 0;
    while k < |rs|
      invariant 0 <= k <= |rs|
      invariant Valid(st')
      invariant |created| == k
      invariant forall i :: 0 <= i < k ==> created[i] == Interaction(st.nextId + i, Normalize(rs[i]))
      invariant st'.items == st.items + created
      invariant st'.nextId == st.nextId + k
    {
      CreateSpec(st', rs[k]);
      var x;
      st', x := Create(st', rs[k]).0, Create(st', rs[k]).1;
      created := created + [x];
      k := k + 1;
    }
  }

  /** The instant a stored interaction started, as the sort key. */
  function StartKey(x: Interaction): Sorting.SortKey { Sorting.Num(x.startTime()) }

  /** `getAllInteractions`: every stored interaction, latest start first. */
  function GetAll(st: Store): seq<Interaction>
  {
    Sorting.SortBy(st.items, StartKey, Sorting.Desc)
  }

  /** Each stored interaction appears exactly once, start times never
      increase, and interactions that started at the same instant keep
      their insertion order. */
  lemma GetAllSpec(st: Store)
    ensures multiset(GetAll(st)) == multiset(st.items)
    ensures forall i, j :: 0 <= i < j < |GetAll(st)| ==> GetAll(st)[i].startTime() >= GetAll(st)[j].startTime()
    ensures forall t :: Select(GetAll(st), StartKey, Sorting.Num(t)) == Select(st.items, StartKey, Sorting.Num(t))
  {
    Sorting.SortBySorted(st.items, StartKey, Sorting.Desc);
    forall t ensures Select(GetAll(st), StartKey, Sorting.Num(t)) == Select(st.items, StartKey, Sorting.Num(t)) {
      Sorting.SortByStable(st.items, StartKey, Sorting.Desc, Sorting.Num(t));
    }
  }

  /** `getInteractionsByDateRange`: both bounds inclusive, in insertion
      order. */
  function ByDateRange(st: Store, start: Instant, end: Instant): (r: seq<Interaction>)
  {
    Filter(st.items, (x: Interaction) => start <= x.startTime() <= end)
  }

  /** `getInteractionsByQueue`: a case-sensitive substring match. */
  function ByQueue(st: Store, queue: string): seq<Interaction>
  {
    Filter(st.items, (x: Interaction) => Contains(x.queue(), queue))
  }

  /** `getInteractionsByAgent`: a case-sensitive substring match. */
  function ByAgent(st: Store, agent: string): seq<Interaction>
  {
    Filter(st.items, (x: Interaction) => Contains(x.agent(), agent))
  }

  /** The queries keep exactly the matching interactions in insertion order;
      an empty queue or agent text matches everything. */
  lemma QueriesSpec(st: Store, start: Instant, end: Instant, text: string)
    ensures forall x :: x in ByDateRange(st, start, end) <==> x in st.items && start <= x.startTime() <= end
    ensures IsSubseq(ByDateRange(st, start, end), st.items)
    ensures forall x :: x in ByQueue(st, text) <==> x in st.items && Contains(x.queue(), text)
    ensures IsSubseq(ByQueue(st, text), st.items)
    ensures forall x :: x in ByAgent(st, text) <==> x in st.items && Contains(x.agent(), text)
    ensures IsSubseq(ByAgent(st, text), st.items)
    ensures ByQueue(st, "") == st.items && ByAgent(st, "") == st.items
    ensures end < start ==> ByDateRange(st, start, end) == []
  {
    ByDateRangeFacts(st, start, end);
    ByQueueFacts(st, text);
    ByAgentFacts(st, text);
  }

  lemma ByDateRangeFacts(st: Store, start: Instant, end: Instant)
    ensures IsSubseq(ByDateRange(st, start, end), st.items)
    ensures end < start ==> ByDateRange(st, start, end) == []
  {
    FilterIsSubseq(st.items, (x: Interaction) => start <= x.startTime() <= end);
  }

  lemma ByQueueFacts(st: Store, text: string)
    ensures IsSubseq(ByQueue(st, text), st.items)
    ensures ByQueue(st, "") == st.items
  {
    FilterIsSubseq(st.items, (x: Interaction) => Contains(x.queue(), text));
    forall x: Interaction ensures Contains(x.queue(), "") {
      ContainsTrivial(x.queue());
    }
    FilterAll(st.items, (x: Interaction) => Contains(x.queue(), ""));
  }

  lemma ByAgentFacts(st: Store, text: string)
    ensures IsSubseq(ByAgent(st, text), st.items)
    ensures ByAgent(st, "") == st.items
  {
    FilterIsSubseq(st.items, (x: Interaction) => Contains(x.agent(), text));
    forall x: Interaction ensures Contains(x.agent(), "") {
      ContainsTrivial(x.agent());
    }
    FilterAll(st.items, (x: Interaction) => Contains(x.agent(), ""));
  }

  /** `clearAllInteractions`. */
  function Clear(st: Store): Store
  {
    Store([], 1)
  }

  /** Clearing empties the store and restarts the ids at 1, twice is once,
      and the next interaction created gets id 1. */
  lemma ClearSpec(st: Store, r: Record)
    ensures Clear(st) == Empty
    ensures Valid(Clear(st))
    ensures Clear(Clear(st)) == Clear(st)
    ensures Create(Clear(st), r).1.id == 1
    ensures Create(Clear(st), r).0.items == [Create(Clear(st), r).1]
  {
  }
}
