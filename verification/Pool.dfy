/**
 The index allocator of libraries/support/pool.h.

 `PoolModel` is the value the rest of the project computes with: a finite map of
 live items, the free list from head to tail, and the watermark. `Pool` is the
 in-place implementation, whose free list is threaded through the node array,
 and every operation of it is proved to compute the `PoolModel` operation of the
 same name.
 */
module Pools {

  datatype PoolModel<T> = PoolModel(items: map<nat, T>, free: seq<nat>, watermark: nat, capacity: nat) {

    ghost predicate Valid() {
      && |items| + |free| == watermark <= capacity
      && Distinct(free)
      && (forall k :: 0 <= k < |free| ==> free[k] < watermark && free[k] !in items)
      && (forall i <- items :: i < watermark)
    }

    predicate Full() {
      |items| >= capacity
    }

    /** Where `EmplaceAnywhere` puts its item: the head of the free list, else the watermark. */
    function Slot(): nat {
      if free != [] then free[0] else watermark
    }

    function Emplace(idx: nat, x: T): (p: PoolModel<T>)
      requires Valid() && idx < capacity
      ensures p.Valid() && p.capacity == capacity
      ensures p.items == items[idx := x]
    {
      if idx in items then
        this.(items := items[idx := x])
      else if idx < watermark then
        FreeListIsTheDead();
        this.(items := items[idx := x], free := Without(free, idx))
      else
        this.(items := items[idx := x], free := Grown(free, watermark, idx), watermark := idx + 1)
    }

    function EmplaceAnywhere(x: T): (p: PoolModel<T>)
      requires Valid() && !Full()
      ensures p.Valid() && p.capacity == capacity
      ensures Slot() !in items && p.items == items[Slot() := x]
    {
      Emplace(Slot(), x)
    }

    function Erase(idx: nat): (p: PoolModel<T>)
      requires Valid() && idx in items
      ensures p.Valid() && p.capacity == capacity
      ensures p.items == items - {idx}
    {
      MinusCount(items, idx);
      if idx == watermark - 1 then
        this.(items := items - {idx}, watermark := watermark - 1)
      else
        this.(items := items - {idx}, free := [idx] + free)
    }

    /** The free list holds exactly the dead indexes below the watermark. */
    lemma FreeListIsTheDead()
      requires Valid()
      ensures forall i: nat :: i in free <==> i < watermark && i !in items
    {
      var onList := Elements(free);
      assert items.Keys !! onList && items.Keys + onList <= Below(watermark);
      assert |items.Keys + onList| == |items.Keys| + |onList|;
      SubsetOfSameSize(items.Keys + onList, Below(watermark));
    }

    /** `EmplaceAnywhere` never lands on a live item, and stays inside the array exactly when the pool is not full. */
    lemma SlotIsFresh()
      requires Valid()
      ensures Slot() !in items
      ensures Slot() < capacity <==> !Full()
    {
    }
  }

  function Empty<T>(capacity: nat): (p: PoolModel<T>)
    ensures p.Valid() && p.items == map[] && p.capacity == capacity
  {
    PoolModel(map[], [], 0, capacity)
  }

  ghost predicate Distinct(s: seq<nat>) {
    forall i, j :: 0 <= i < j < |s| ==> s[i] != s[j]
  }

  ghost function Below(n: nat): (b: set<nat>)
    ensures |b| == n && forall i: nat :: i in b <==> i < n
  {
    if n == 0 then {} else Below(n - 1) + {n - 1}
  }

  lemma FreeBelow(used: set<nat>, n: nat) returns (i: nat)
    requires |used| < n
    ensures i < n && i !in used
  {
    var free := Below(n) - used;
    assert Below(n) == free + (used * Below(n));
    assert used == (used - Below(n)) + (used * Below(n));
    assert |free| > 0;
    i :| i in free;
  }

  ghost function Elements(s: seq<nat>): (e: set<nat>)
    ensures forall i :: i in e <==> i in s
    ensures |e| <= |s|
    ensures Distinct(s) ==> |e| == |s|
  {
    if s == [] then {} else
      assert s == [s[0]] + s[1..];
      assert Distinct(s) ==> s[0] !in s[1..];
      {s[0]} + Elements(s[1..])
  }

  lemma SubsetSize(a: set<nat>, b: set<nat>)
    requires a <= b
    ensures |a| <= |b|
  {
    assert b == a + (b - a);
  }

  lemma SubsetOfSameSize(a: set<nat>, b: set<nat>)
    requires a <= b && |a| == |b|
    ensures a == b
  {
    assert b == a + (b - a);
    assert |b| == |a| + |b - a|;
  }

  /** Indexes below `n` are at most `n`, and if that many then all. */
  lemma CountBelow(used: set<nat>, n: nat)
    requires forall i <- used :: i < n
    ensures |used| <= n && (|used| == n ==> forall i: nat :: i < n ==> i in used)
  {
    assert used <= Below(n);
    SubsetSize(used, Below(n));
    if |used| == n {
      SubsetOfSameSize(used, Below(n));
    }
  }

  function IndexOf(s: seq<nat>, x: nat): (k: nat)
    requires x in s
    ensures k < |s| && s[k] == x
  {
    if s[0] == x then 0 else 1 + IndexOf(s[1..], x)
  }

  /** `s` with one occurrence of `x` removed. */
  function Without(s: seq<nat>, x: nat): (r: seq<nat>)
    requires x in s
    ensures |r| == |s| - 1
    ensures Distinct(s) ==> Distinct(r) && forall k :: 0 <= k < |r| ==> r[k] != x && r[k] in s
  {
    s[..IndexOf(s, x)] + s[IndexOf(s, x) + 1..]
  }

  /** The free list after the slots `lo` up to `hi` have been put on it one by one. */
  function Grown(free: seq<nat>, lo: nat, hi: nat): (r: seq<nat>)
    requires lo <= hi
    ensures |r| == |free| + hi - lo
    ensures forall k :: 0 <= k < hi - lo ==> r[k] == hi - 1 - k
    ensures forall k :: hi - lo <= k < |r| ==> r[k] == free[k - (hi - lo)]
    decreases hi - lo
  {
    if lo == hi then free else Grown([lo] + free, lo + 1, hi)
  }

  lemma RankIsIndex(free: seq<nat>, rank: map<nat, nat>, idx: nat)
    requires Ranked(free, rank) && idx in rank
    ensures idx in free && rank[idx] < |free|
    ensures Without(free, idx) == free[..rank[idx]] + free[rank[idx] + 1..]
  {
    assert IndexOf(free, idx) == rank[idx];
  }

  datatype Node<T> = Node(next: nat, prev: nat, value: T)

  /** Entry `k` of a list, or the sentinel past either end. */
  ghost function Link(s: seq<nat>, k: int, end: nat): nat {
    if 0 <= k < |s| then s[k] else end
  }

  /** `rank` tells where each index sits on the list `free`, and only those are on it. */
  ghost predicate Ranked(free: seq<nat>, rank: map<nat, nat>) {
    && (forall k :: 0 <= k < |free| ==> free[k] in rank && rank[free[k]] == k)
    && (forall i <- rank :: rank[i] < |free| && free[rank[i]] == i)
  }

  /** The nodes of the dead indexes form a doubly-linked list in the order `free`. */
  ghost predicate NextLinked<T>(ns: seq<Node<T>>, free: seq<nat>, rank: map<nat, nat>, end: nat) {
    && (forall i <- rank :: i < |ns| <= end)
    && (forall i {:trigger ns[i]} :: i in rank ==> ns[i].next == Link(free, rank[i] + 1, end))
  }

  ghost predicate PrevLinked<T>(ns: seq<Node<T>>, free: seq<nat>, rank: map<nat, nat>, end: nat) {
    && (forall i <- rank :: i < |ns| <= end)
    && (forall i {:trigger ns[i]} :: i in rank ==> ns[i].prev == Link(free, rank[i] as int - 1, end))
  }

  ghost predicate Linked<T>(ns: seq<Node<T>>, free: seq<nat>, rank: map<nat, nat>, end: nat) {
    Ranked(free, rank) && NextLinked(ns, free, rank, end) && PrevLinked(ns, free, rank, end)
  }

  /** A free list in the order `free`, with the head and tail indexes the pool keeps for it. */
  ghost predicate ListAt<T>(ns: seq<Node<T>>, head: nat, tail: nat, free: seq<nat>, rank: map<nat, nat>, end: nat) {
    Linked(ns, free, rank, end) && head == Link(free, 0, end) && tail == Link(free, |free| - 1, end)
  }

  ghost predicate Live<T>(ns: seq<Node<T>>, items: map<nat, T>, rank: map<nat, nat>, watermark: nat, end: nat) {
    && watermark <= |ns| <= end
    && (forall i <- rank :: i < watermark)
    && (forall i <- items :: i < watermark && i !in rank)
    && (forall i <- items :: ns[i] == Node(end, end, items[i]))
    && (forall i: nat :: i < watermark ==> i in items || i in rank)
  }

  // The link surgery of prepend_to_free_list and of the removal in emplace, on node sequences.

  ghost function SetPrev<T>(ns: seq<Node<T>>, i: nat, prev: nat): (r: seq<Node<T>>)
    ensures |r| == |ns|
  {
    if i < |ns| then ns[i := ns[i].(prev := prev)] else ns
  }

  ghost function SetNext<T>(ns: seq<Node<T>>, i: nat, next: nat): (r: seq<Node<T>>)
    ensures |r| == |ns|
  {
    if i < |ns| then ns[i := ns[i].(next := next)] else ns
  }

  ghost function PrependedRank(rank: map<nat, nat>, idx: nat): (r: map<nat, nat>)
    ensures r.Keys == rank.Keys + {idx}
  {
    map i | i in rank.Keys + {idx} :: if i == idx then 0 else rank[i] + 1
  }

  ghost function UnlinkedRank(rank: map<nat, nat>, idx: nat): (r: map<nat, nat>)
    requires idx in rank
    ensures r.Keys == rank.Keys - {idx}
  {
    map i | i in rank.Keys - {idx} :: if rank[i] == 0 || rank[i] < rank[idx] then rank[i] else rank[i] - 1
  }

  lemma PrependRanked(free: seq<nat>, rank: map<nat, nat>, idx: nat)
    requires Ranked(free, rank) && idx !in rank
    ensures Ranked([idx] + free, PrependedRank(rank, idx))
  {
  }

  lemma PrependNext<T>(ns: seq<Node<T>>, free: seq<nat>, rank: map<nat, nat>, end: nat, idx: nat)
    requires Ranked(free, rank) && NextLinked(ns, free, rank, end)
    requires idx < |ns| <= end && idx !in rank
    ensures NextLinked(SetNext(ns, idx, Link(free, 0, end)), [idx] + free, PrependedRank(rank, idx), end)
  {
  }

  lemma PrependPrev<T>(ns: seq<Node<T>>, free: seq<nat>, rank: map<nat, nat>, end: nat, idx: nat)
    requires Ranked(free, rank) && PrevLinked(ns, free, rank, end)
    requires idx < |ns| <= end && idx !in rank && ns[idx].prev == end
    ensures PrevLinked(SetPrev(ns, Link(free, 0, end), idx), [idx] + free, PrependedRank(rank, idx), end)
  {
  }

  lemma UnlinkRanked(free: seq<nat>, rank: map<nat, nat>, idx: nat)
    requires Ranked(free, rank) && idx in rank
    ensures Ranked(free[..rank[idx]] + free[rank[idx] + 1..], UnlinkedRank(rank, idx))
  {
  }

  lemma UnlinkEnds(free: seq<nat>, rank: map<nat, nat>, end: nat, idx: nat)
    requires Ranked(free, rank) && idx in rank
    ensures rank[idx] < |free|
    ensures var k, head, tail := rank[idx], Link(free, 0, end), Link(free, |free| - 1, end);
      var rest := free[..k] + free[k + 1..];
      && Link(rest, 0, end) == (if head == idx then Link(free, k + 1, end) else head)
      && Link(rest, |rest| - 1, end) == (if tail == idx then Link(free, k as int - 1, end) else tail)
  {
  }

  lemma UnlinkNext<T>(ns: seq<Node<T>>, free: seq<nat>, rank: map<nat, nat>, end: nat, idx: nat)
    requires Ranked(free, rank) && NextLinked(ns, free, rank, end) && idx in rank
    ensures var k := rank[idx];
      NextLinked(SetNext(ns, Link(free, k as int - 1, end), Link(free, k + 1, end)),
                 free[..k] + free[k + 1..], UnlinkedRank(rank, idx), end)
  {
  }

  lemma UnlinkPrev<T>(ns: seq<Node<T>>, free: seq<nat>, rank: map<nat, nat>, end: nat, idx: nat)
    requires Ranked(free, rank) && PrevLinked(ns, free, rank, end) && idx in rank
    ensures var k := rank[idx];
      PrevLinked(SetPrev(ns, Link(free, k + 1, end), Link(free, k as int - 1, end)),
                 free[..k] + free[k + 1..], UnlinkedRank(rank, idx), end)
  {
  }

  lemma PrependLinked<T>(ns: seq<Node<T>>, free: seq<nat>, rank: map<nat, nat>, end: nat, idx: nat)
    requires Linked(ns, free, rank, end)
    requires idx < |ns| <= end && idx !in rank && ns[idx].prev == end
    ensures var head := Link(free, 0, end);
      Linked(SetNext(SetPrev(ns, head, idx), idx, head), [idx] + free, PrependedRank(rank, idx), end)
  {
    PrependRanked(free, rank, idx);
    PrependPrev(ns, free, rank, end, idx);
    var ns1 := SetPrev(ns, Link(free, 0, end), idx);
    NextSurvivesSetPrev(ns, free, rank, end, Link(free, 0, end), idx);
    PrependNext(ns1, free, rank, end, idx);
    PrevSurvivesSetNext(ns1, [idx] + free, PrependedRank(rank, idx), end, idx, Link(free, 0, end));
  }

  lemma UnlinkLinked<T>(ns: seq<Node<T>>, free: seq<nat>, rank: map<nat, nat>, end: nat, idx: nat)
    requires Linked(ns, free, rank, end) && idx in rank
    ensures var k := rank[idx];
      var prev, next := Link(free, k as int - 1, end), Link(free, k + 1, end);
      Linked(SetPrev(SetNext(ns, prev, next), next, prev), free[..k] + free[k + 1..], UnlinkedRank(rank, idx), end)
  {
    var k := rank[idx];
    var prev, next := Link(free, k as int - 1, end), Link(free, k + 1, end);
    UnlinkRanked(free, rank, idx);
    UnlinkNext(ns, free, rank, end, idx);
    var ns1 := SetNext(ns, prev, next);
    PrevSurvivesSetNext(ns, free, rank, end, prev, next);
    UnlinkPrev(ns1, free, rank, end, idx);
    NextSurvivesSetPrev(ns1, free[..k] + free[k + 1..], UnlinkedRank(rank, idx), end, next, prev);
  }

  lemma UnlinkNeighbours<T>(ns: seq<Node<T>>, free: seq<nat>, rank: map<nat, nat>, end: nat, idx: nat)
    requires Linked(ns, free, rank, end) && idx in rank
    ensures idx < |ns| <= end
    ensures ns[idx].next == Link(free, rank[idx] + 1, end)
    ensures ns[idx].prev == Link(free, rank[idx] as int - 1, end)
    ensures ns[idx].next == end || (ns[idx].next in rank && ns[idx].next < |ns|)
    ensures ns[idx].prev == end || (ns[idx].prev in rank && ns[idx].prev < |ns|)
  {
  }

  lemma InList<T>(ns: seq<Node<T>>, free: seq<nat>, rank: map<nat, nat>, end: nat, idx: nat)
    requires Linked(ns, free, rank, end) && idx in rank
    ensures Ranked(free, rank)
  {
  }

  lemma UnlinkTouches<T>(ns: seq<Node<T>>, rank: map<nat, nat>, next: nat, prev: nat, end: nat)
    requires |ns| <= end && (next == end || next in rank) && (prev == end || prev in rank)
    ensures OnlyDeadChanged(ns, SetPrev(SetNext(ns, prev, next), next, prev), rank)
  {
  }

  /** Putting a live node at the head keeps the list, in the new order. */
  lemma PrependList<T>(ns: seq<Node<T>>, head: nat, tail: nat, free: seq<nat>, rank: map<nat, nat>, end: nat, idx: nat)
    requires ListAt(ns, head, tail, free, rank, end)
    requires idx < |ns| <= end && idx !in rank && ns[idx].prev == end
    ensures head == end || head < |ns|
    ensures var ns' := SetNext(SetPrev(ns, head, idx), idx, head);
      && ListAt(ns', idx, if tail == end then idx else tail, [idx] + free, PrependedRank(rank, idx), end)
      && OnlyDeadChanged(ns, ns', PrependedRank(rank, idx))
  {
    PrependLinked(ns, free, rank, end, idx);
  }

  /** Taking a node out, wherever it sits, keeps the list, in the old order without it. */
  lemma UnlinkList<T>(ns: seq<Node<T>>, head: nat, tail: nat, free: seq<nat>, rank: map<nat, nat>, end: nat, idx: nat)
    requires ListAt(ns, head, tail, free, rank, end) && idx in rank
    ensures idx < |ns| <= end && idx in free
    ensures ns[idx].next == end || ns[idx].next < |ns|
    ensures ns[idx].prev == end || ns[idx].prev < |ns|
    ensures var next, prev := ns[idx].next, ns[idx].prev;
      var ns' := SetPrev(SetNext(ns, prev, next), next, prev);
      && ListAt(ns', if head == idx then next else head, if tail == idx then prev else tail,
                Without(free, idx), UnlinkedRank(rank, idx), end)
      && OnlyDeadChanged(ns, ns', rank)
  {
    hide Linked, Without, UnlinkedRank, OnlyDeadChanged;
    InList(ns, free, rank, end, idx);
    UnlinkLinked(ns, free, rank, end, idx);
    RankIsIndex(free, rank, idx);
    UnlinkEnds(free, rank, end, idx);
    UnlinkNeighbours(ns, free, rank, end, idx);
    UnlinkTouches(ns, rank, ns[idx].next, ns[idx].prev, end);
  }

  lemma NextSurvivesSetPrev<T>(ns: seq<Node<T>>, free: seq<nat>, rank: map<nat, nat>, end: nat, i: nat, prev: nat)
    requires NextLinked(ns, free, rank, end)
    ensures NextLinked(SetPrev(ns, i, prev), free, rank, end)
  {
  }

  lemma PrevSurvivesSetNext<T>(ns: seq<Node<T>>, free: seq<nat>, rank: map<nat, nat>, end: nat, i: nat, next: nat)
    requires PrevLinked(ns, free, rank, end)
    ensures PrevLinked(SetNext(ns, i, next), free, rank, end)
  {
  }

  /** Only nodes of dead indexes may differ between `ns` and `ns'`. */
  ghost predicate OnlyDeadChanged<T>(ns: seq<Node<T>>, ns': seq<Node<T>>, rank: map<nat, nat>) {
    |ns| == |ns'| && forall i :: 0 <= i < |ns| && i !in rank ==> ns'[i] == ns[i]
  }

  lemma LiveNode<T>(ns: seq<Node<T>>, items: map<nat, T>, rank: map<nat, nat>, watermark: nat, end: nat, idx: nat)
    requires Live(ns, items, rank, watermark, end) && idx in items
    ensures idx < watermark <= |ns| <= end && idx !in rank && ns[idx] == Node(end, end, items[idx])
  {
  }

  lemma LiveOrDead<T>(ns: seq<Node<T>>, items: map<nat, T>, rank: map<nat, nat>, watermark: nat, end: nat, idx: nat)
    requires Live(ns, items, rank, watermark, end) && idx < watermark
    ensures idx in items <==> idx !in rank
  {
  }

  lemma LiveWatermark<T>(ns: seq<Node<T>>, items: map<nat, T>, rank: map<nat, nat>, watermark: nat, end: nat)
    requires Live(ns, items, rank, watermark, end)
    ensures watermark <= |ns| <= end && watermark !in rank
  {
  }

  lemma LiveErase<T>(ns: seq<Node<T>>, ns': seq<Node<T>>, items: map<nat, T>, rank: map<nat, nat>,
                     watermark: nat, end: nat, idx: nat)
    requires Live(ns, items, rank, watermark, end) && idx in items
    requires OnlyDeadChanged(ns, ns', PrependedRank(rank, idx))
    ensures Live(ns', items - {idx}, PrependedRank(rank, idx), watermark, end)
  {
  }

  lemma LiveEraseLast<T>(ns: seq<Node<T>>, items: map<nat, T>, rank: map<nat, nat>, watermark: nat, end: nat)
    requires Live(ns, items, rank, watermark, end) && watermark >= 1 && watermark - 1 in items
    ensures Live(ns, items - {watermark - 1}, rank, watermark - 1, end)
  {
  }

  lemma ListFrame<T>(ns: seq<Node<T>>, ns': seq<Node<T>>, head: nat, tail: nat, free: seq<nat>, rank: map<nat, nat>,
                     end: nat)
    requires ListAt(ns, head, tail, free, rank, end) && |ns'| == |ns|
    requires forall i <- rank :: i < |ns| ==> ns'[i] == ns[i]
    ensures ListAt(ns', head, tail, free, rank, end)
  {
  }

  /** Storing `x` at a live index. */
  lemma LiveOverwrite<T>(ns: seq<Node<T>>, items: map<nat, T>, rank: map<nat, nat>, watermark: nat, end: nat,
                         idx: nat, x: T)
    requires Live(ns, items, rank, watermark, end) && idx in items
    ensures idx < |ns| && idx !in rank
    ensures Live(ns[idx := ns[idx].(value := x)], items[idx := x], rank, watermark, end)
  {
  }

  /** Storing `x` at the watermark. */
  lemma LiveAppend<T>(ns: seq<Node<T>>, items: map<nat, T>, rank: map<nat, nat>, watermark: nat, end: nat, x: T)
    requires Live(ns, items, rank, watermark, end) && watermark < |ns|
    ensures watermark !in items && watermark !in rank
    ensures Live(ns[watermark := Node(end, end, x)], items[watermark := x], rank, watermark + 1, end)
  {
  }

  /** Storing `x` at an index that has just left the free list. */
  lemma LiveRevive<T>(ns: seq<Node<T>>, ns': seq<Node<T>>, items: map<nat, T>, rank: map<nat, nat>, rank': map<nat,
                      nat>,
                      watermark: nat, end: nat, idx: nat, x: T)
    requires Live(ns, items, rank, watermark, end) && idx in rank
    requires OnlyDeadChanged(ns, ns', rank) && rank'.Keys == rank.Keys - {idx}
    ensures idx < |ns'| && idx !in items
    ensures Live(ns'[idx := Node(end, end, x)], items[idx := x], rank', watermark, end)
  {
  }

  /** The watermark passes over a node that has just gone on the free list. */
  lemma LiveGrown<T>(ns: seq<Node<T>>, ns': seq<Node<T>>, items: map<nat, T>, rank: map<nat, nat>, watermark: nat,
                     end: nat)
    requires Live(ns, items, rank, watermark, end) && watermark < |ns|
    requires OnlyDeadChanged(ns[watermark := ns[watermark].(next := end, prev := end)], ns',
      PrependedRank(rank, watermark))
    ensures Live(ns', items, PrependedRank(rank, watermark), watermark + 1, end)
  {
  }

  lemma MinusCount<T>(items: map<nat, T>, idx: nat)
    requires idx in items
    ensures |items - {idx}| == |items| - 1
  {
    assert (items - {idx}).Keys == items.Keys - {idx};
  }

  class Pool<T(0)> {
    /** The null index (END_SENTINEL); the capacity never exceeds it. */
    const end: nat
    const nodes: array<Node<T>>
    var watermark: nat
    var head: nat
    var tail: nat
    var count: nat
    /** What the pool stands for, and where each dead index sits on the free list. */
    ghost var items: map<nat, T>
    ghost var free: seq<nat>
    ghost var rank: map<nat, nat>

    ghost predicate Valid()
      reads this, nodes
    {
      && ListAt(nodes[..], head, tail, free, rank, end)
      && Live(nodes[..], items, rank, watermark, end)
      && count == |items| && count + |free| == watermark
    }

    ghost function Model(): (p: PoolModel<T>)
      requires Valid()
      reads this, nodes
      ensures p.Valid()
    {
      PoolModel(items, free, watermark, nodes.Length)
    }

    constructor (capacity: nat, end: nat, zero: T)
      requires 0 < capacity <= end
      ensures Valid() && fresh(nodes)
      ensures Model() == Empty(capacity)
    {
      this.end := end;
      nodes := new Node<T>[capacity](_ => Node(end, end, zero));
      watermark, head, tail, count := 0, end, end, 0;
      items, free, rank := map[], [], map[];
    }

    method Clear()
      requires Valid()
      modifies this
      ensures Valid() && Model() == Empty(nodes.Length)
    {
      hide PoolModel.Valid;
      watermark, head, tail, count := 0, end, end, 0;
      items, free, rank := map[], [], map[];
    }

    /** Liveness is decided from the links alone: there is no flag in the node. */
    predicate IsValid(idx: nat)
      requires watermark <= nodes.Length
      reads this, nodes
    {
      idx < watermark && nodes[idx].next == end && idx != head && idx != tail
    }

    lemma IsValidMeansLive(idx: nat)
      requires Valid()
      ensures IsValid(idx) <==> idx in Model().items
    {
      if idx < watermark {
        assert nodes[..][idx] == nodes[idx];
      }
    }

    /** The iterator's jump to the first live index at or after `from`, stopping at the watermark. */
    method NextValid(from: nat) returns (idx: nat)
      requires Valid() && from <= watermark
      ensures from <= idx <= watermark
      ensures idx < watermark ==> idx in Model().items
      ensures forall i :: from <= i < idx ==> i !in Model().items
    {
      hide Linked;
      idx := from;
      IsValidMeansLive(idx);
      while idx != watermark && !IsValid(idx)
        invariant from <= idx <= watermark
        invariant IsValid(idx) <==> idx in items
        invariant forall i :: from <= i < idx ==> i !in items
        decreases watermark - idx
      {
        idx := idx + 1;
        IsValidMeansLive(idx);
      }
    }

    method PrependToFreeList(idx: nat)
      requires ListAt(nodes[..], head, tail, free, rank, end)
      requires idx < nodes.Length <= end && idx !in rank && nodes[idx].prev == end
      modifies this`head, this`tail, this`free, this`rank, nodes
      ensures ListAt(nodes[..], head, tail, free, rank, end)
      ensures free == [idx] + old(free)
      ensures rank == PrependedRank(old(rank), idx)
      ensures OnlyDeadChanged(old(nodes[..]), nodes[..], rank)
    {
      PrependList(nodes[..], head, tail, free, rank, end, idx);
      hide ListAt, OnlyDeadChanged, PrependedRank;
      if head != end {
        nodes[head] := nodes[head].(prev := idx);
      }
      nodes[idx] := nodes[idx].(next := head);
      head := idx;
      if tail == end {
        tail := idx;
      }
      rank := PrependedRank(rank, idx);
      free := [idx] + free;
      assert nodes[..] == SetNext(SetPrev(old(nodes[..]), old(head), idx), idx, old(head));
    }

    method Erase(idx: nat)
      requires Valid() && idx in Model().items
      modifies this, nodes
      ensures Valid() && Model() == old(Model()).Erase(idx)
    {
      hide ListAt, Live, PoolModel.Valid;
      LiveNode(nodes[..], items, rank, watermark, end, idx);
      if idx == watermark - 1 {
        LiveEraseLast(nodes[..], items, rank, watermark, end);
        watermark := watermark - 1;
        count := count - 1;
      } else {
        PrependToFreeList(idx);
        LiveErase(old(nodes[..]), nodes[..], items, old(rank), watermark, end, idx);
        count := count - 1;
      }
      MinusCount(items, idx);
      items := items - {idx};
    }

    /** Raises the watermark to `idx`, as if the skipped slots had been filled and erased again. */
    method IncreaseSize(idx: nat)
      requires Valid() && idx < nodes.Length
      modifies this`watermark, this`head, this`tail, this`free, this`rank, nodes
      ensures Valid()
      ensures watermark == if old(watermark) < idx then idx else old(watermark)
      ensures free == if old(watermark) < idx then Grown(old(free), old(watermark), idx) else old(free)
    {
      hide Valid;
      while watermark < idx
        invariant Valid()
        invariant old(watermark) <= idx ==> watermark <= idx
        invariant old(watermark) <= idx ==> Grown(free, watermark, idx) == Grown(old(free), old(watermark), idx)
        invariant old(watermark) > idx ==> watermark == old(watermark) && free == old(free)
      {
        NewDeadSlot();
      }
    }

    /** One turn of the loop of increase_size. */
    method NewDeadSlot()
      requires Valid() && watermark < nodes.Length
      modifies this`watermark, this`head, this`tail, this`free, this`rank, nodes
      ensures Valid() && watermark == old(watermark) + 1
      ensures free == [old(watermark)] + old(free)
    {
      hide Live, ListAt, OnlyDeadChanged, PrependedRank;
      ghost var was := nodes[..];
      LiveWatermark(was, items, rank, watermark, end);
      ListFrame(was, was[watermark := was[watermark].(next := end, prev := end)], head, tail, free, rank, end);
      nodes[watermark] := nodes[watermark].(next := end, prev := end);
      assert nodes[..] == was[watermark := was[watermark].(next := end, prev := end)];
      PrependToFreeList(watermark);
      LiveGrown(was, nodes[..], items, old(rank), watermark, end);
      watermark := watermark + 1;
    }

    /** Takes `idx` out of the middle of the free list. */
    method Unlink(idx: nat)
      requires ListAt(nodes[..], head, tail, free, rank, end)
      requires idx in rank
      modifies this`head, this`tail, this`free, this`rank, nodes
      ensures ListAt(nodes[..], head, tail, free, rank, end)
      ensures idx in old(free) && free == Without(old(free), idx)
      ensures rank.Keys == old(rank.Keys) - {idx}
      ensures OnlyDeadChanged(old(nodes[..]), nodes[..], old(rank))
    {
      UnlinkList(nodes[..], head, tail, free, rank, end, idx);
      hide ListAt, OnlyDeadChanged, UnlinkedRank, Without, SetPrev, SetNext;
      assert nodes[..][idx] == nodes[idx];
      var next := nodes[idx].next;
      var prev := nodes[idx].prev;
      Bypass(prev, next);
      if head == idx {
        head := next;
      }
      if tail == idx {
        tail := prev;
      }
      rank := UnlinkedRank(rank, idx);
      free := Without(free, idx);
    }

    /** Makes the neighbours of a removed node point past it. */
    method Bypass(prev: nat, next: nat)
      requires nodes.Length <= end && (prev == end || prev < nodes.Length) && (next == end || next < nodes.Length)
      modifies nodes
      ensures nodes[..] == SetPrev(SetNext(old(nodes[..]), prev, next), next, prev)
    {
      if prev != end {
        nodes[prev] := nodes[prev].(next := next);
      }
      if next != end {
        nodes[next] := nodes[next].(prev := prev);
      }
    }

    method Emplace(idx: nat, x: T)
      requires Valid() && idx < nodes.Length
      modifies this, nodes
      ensures Valid() && Model() == old(Model()).Emplace(idx, x)
    {
      hide Live, ListAt, PoolModel.Valid, Without, Distinct;
      IncreaseSize(idx);
      LiveWatermark(nodes[..], items, rank, watermark, end);
      if IsValid(idx) {
        Overwrite(idx, x);
      } else if idx == watermark {
        Append(x);
      } else {
        IsValidMeansLive(idx);
        Revive(idx, x);
      }
    }

    /** The branch of emplace for an index that is live already. */
    method Overwrite(idx: nat, x: T)
      requires Valid() && IsValid(idx)
      modifies this`items, nodes
      ensures Valid() && idx in old(items) && items == old(items)[idx := x]
    {
      IsValidMeansLive(idx);
      hide Live, ListAt;
      LiveOverwrite(nodes[..], items, rank, watermark, end, idx, x);
      ListFrame(nodes[..], nodes[..][idx := nodes[idx].(value := x)], head, tail, free, rank, end);
      nodes[idx] := nodes[idx].(value := x);
      items := items[idx := x];
    }

    /** The branch of emplace for the watermark itself. */
    method Append(x: T)
      requires Valid() && watermark < nodes.Length
      modifies this`items, this`watermark, this`count, nodes
      ensures Valid() && watermark == old(watermark) + 1
      ensures old(watermark) !in old(items) && items == old(items)[old(watermark) := x]
    {
      hide Live, ListAt;
      LiveAppend(nodes[..], items, rank, watermark, end, x);
      ListFrame(nodes[..], nodes[..][watermark := Node(end, end, x)], head, tail, free, rank, end);
      watermark := watermark + 1;
      nodes[watermark - 1] := Node(end, end, x);
      items := items[watermark - 1 := x];
      count := count + 1;
    }

    /** The branch of emplace for an index on the free list. */
    method Revive(idx: nat, x: T)
      requires Valid() && idx < watermark && idx !in items
      modifies this`head, this`tail, this`free, this`rank, this`items, this`count, nodes
      ensures Valid() && items == old(items)[idx := x]
      ensures idx in old(free) && free == Without(old(free), idx)
    {
      hide Live, ListAt, Without, OnlyDeadChanged;
      ghost var was, wasRank := nodes[..], rank;
      LiveOrDead(was, items, rank, watermark, end, idx);
      Unlink(idx);
      LiveRevive(was, nodes[..], items, wasRank, rank, watermark, end, idx, x);
      ListFrame(nodes[..], nodes[..][idx := Node(end, end, x)], head, tail, free, rank, end);
      nodes[idx] := Node(end, end, x);
      items := items[idx := x];
      count := count + 1;
    }

    method EmplaceAnywhere(x: T) returns (idx: nat)
      requires Valid() && !Model().Full()
      modifies this, nodes
      ensures Valid() && Model() == old(Model()).EmplaceAnywhere(x)
      ensures idx == old(Model()).Slot()
    {
      if head != end {
        idx := head;
      } else {
        idx := watermark;
      }
      Emplace(idx, x);
    }
  }
}
