/**
 The fragment buffer of libraries/support/frag_buffer.h: bytes that arrive in any
 order, with a list of the holes that are still missing, after section 3 of RFC 815.

 What the hole list stands for is two sets of positions: those that have been
 `covered`, and those that an insertion has `touched`, the end of a range included.
 The holes are the maximal runs of what is not covered, cut further at the touched
 positions inside them; only an empty insertion leaves such a cut.
 */
module FragBuffers {
  import opened Bytes
  import opened Pools

  /** Where the last hole ends: the largest int. */
  const NO_END: nat := 0x7FFF_FFFF

  datatype Hole = Hole(start: nat, end: nat)

  /** Edge to edge is not overlapping. */
  predicate Overlaps(a: Hole, b: Hole) {
    b.start < a.end && b.end > a.start
  }

  type Holes = map<nat, Hole>

  ghost predicate Disjoint(items: Holes) {
    && (forall i <- items :: items[i].start < items[i].end <= NO_END)
    && (forall i, j :: i in items && j in items && i != j ==>
         items[i].end <= items[j].start || items[j].end <= items[i].start)
  }

  ghost predicate InHole(items: Holes, x: nat) {
    exists i :: i in items && items[i].start <= x < items[i].end
  }

  /** Both `x` and the position before it are in one hole. */
  ghost predicate InsideHole(items: Holes, x: nat) {
    exists i :: i in items && items[i].start < x < items[i].end
  }

  /** The holes are the exact complement of what is covered, cut where an insertion touched it. */
  ghost predicate Represents(items: Holes, covered: set<nat>, touched: set<nat>) {
    && Disjoint(items)
    && (forall x: nat {:trigger InHole(items, x)} :: InHole(items, x) <==> x < NO_END && x !in covered)
    && (forall x: nat {:trigger InsideHole(items, x)} :: InsideHole(items, x) <==> 0 < x < NO_END && x !in touched)
  }

  ghost function Range(start: nat, end: nat): (r: set<nat>)
    ensures forall x :: x in r <==> start <= x < end
  {
    if start >= end then {} else Range(start, end - 1) + {end - 1}
  }

  // One turn of the insertion loop: hole `i` is replaced by what `a` leaves of it.

  function LeftOver(h: Hole, a: Hole): bool { h.start < a.start }

  function RightOver(h: Hole, a: Hole): bool { a.end < h.end }

  ghost function Trim(items: Holes, i: nat, a: Hole, left: nat, right: nat): Holes
    requires i in items
  {
    var h := items[i];
    var m := items - {i};
    var m1 := if LeftOver(h, a) then m[left := Hole(h.start, a.start)] else m;
    if RightOver(h, a) then m1[right := Hole(a.end, h.end)] else m1
  }

  /** The slots for what is left over are free when they are taken. */
  ghost predicate FreeSlots(items: Holes, i: nat, a: Hole, left: nat, right: nat)
    requires i in items
  {
    && (LeftOver(items[i], a) ==> left !in items - {i})
    && (RightOver(items[i], a) ==> right !in items - {i} && !(LeftOver(items[i], a) && left == right))
  }

  ghost predicate Turn(items: Holes, i: nat, a: Hole, left: nat, right: nat) {
    i in items && Disjoint(items) && a.start <= a.end && Overlaps(a, items[i]) && FreeSlots(items, i, a, left, right)
  }

  lemma TrimDisjoint(items: Holes, i: nat, a: Hole, left: nat, right: nat)
    requires Turn(items, i, a, left, right)
    ensures Disjoint(Trim(items, i, a, left, right))
  {
  }

  lemma TrimShrinks(items: Holes, i: nat, a: Hole, left: nat, right: nat, x: nat)
    requires Turn(items, i, a, left, right)
    ensures InHole(Trim(items, i, a, left, right), x) ==> InHole(items, x)
    ensures InsideHole(Trim(items, i, a, left, right), x) ==> InsideHole(items, x)
  {
  }

  lemma TrimKeepsHole(items: Holes, i: nat, a: Hole, left: nat, right: nat, x: nat)
    requires Turn(items, i, a, left, right) && InHole(items, x) && !(a.start <= x < a.end)
    ensures InHole(Trim(items, i, a, left, right), x)
  {
    var items' := Trim(items, i, a, left, right);
    var k :| k in items && items[k].start <= x < items[k].end;
    if k != i {
      assert k in items' && items'[k] == items[k];
    } else if x < a.start {
      assert items'[left] == Hole(items[i].start, a.start);
    } else {
      assert items'[right] == Hole(a.end, items[i].end);
    }
  }

  lemma TrimKeepsInside(items: Holes, i: nat, a: Hole, left: nat, right: nat, x: nat)
    requires Turn(items, i, a, left, right) && InsideHole(items, x) && !(a.start <= x <= a.end)
    ensures InsideHole(Trim(items, i, a, left, right), x)
  {
    var items' := Trim(items, i, a, left, right);
    var k :| k in items && items[k].start < x < items[k].end;
    if k != i {
      assert k in items' && items'[k] == items[k];
    } else if x < a.start {
      assert items'[left] == Hole(items[i].start, a.start);
    } else {
      assert items'[right] == Hole(a.end, items[i].end);
    }
  }

  /** Holes below index `n` do not overlap `a` any more. */
  ghost predicate Cleared(items: Holes, a: Hole, n: nat) {
    forall k <- items :: k < n ==> !Overlaps(a, items[k])
  }

  lemma TrimClears(items: Holes, i: nat, a: Hole, left: nat, right: nat)
    requires Turn(items, i, a, left, right) && Cleared(items, a, i)
    ensures Cleared(Trim(items, i, a, left, right), a, i + 1)
  {
  }

  /** What the loop keeps: nothing is lost outside `a`, nothing is gained anywhere. */
  ghost predicate Between(before: Holes, items: Holes, a: Hole) {
    && Disjoint(items)
    && (forall x: nat {:trigger InHole(items, x)} :: InHole(items, x) ==> InHole(before, x))
    && (forall x: nat {:trigger InHole(before, x)} :: InHole(before, x) && !(a.start <= x < a.end) ==> InHole(items, x))
    && (forall x: nat {:trigger InsideHole(items, x)} :: InsideHole(items, x) ==> InsideHole(before, x))
    && (forall x: nat {:trigger InsideHole(before, x)} :: InsideHole(before, x) && !(a.start <= x <= a.end) ==>
         InsideHole(items, x))
  }

  lemma TrimKeepsBetween(before: Holes, items: Holes, i: nat, a: Hole, left: nat, right: nat)
    requires Between(before, items, a) && Turn(items, i, a, left, right)
    ensures Between(before, Trim(items, i, a, left, right), a)
  {
    var items' := Trim(items, i, a, left, right);
    TrimDisjoint(items, i, a, left, right);
    forall x: nat
      ensures InHole(items', x) ==> InHole(before, x)
      ensures InsideHole(items', x) ==> InsideHole(before, x)
    {
      TrimShrinks(items, i, a, left, right, x);
    }
    forall x: nat | InHole(before, x) && !(a.start <= x < a.end)
      ensures InHole(items', x)
    {
      TrimKeepsHole(items, i, a, left, right, x);
    }
    forall x: nat | InsideHole(before, x) && !(a.start <= x <= a.end)
      ensures InsideHole(items', x)
    {
      TrimKeepsInside(items, i, a, left, right, x);
    }
    hide Trim, Turn, InHole, InsideHole, Disjoint;
  }

  lemma ClearedHole(items: Holes, a: Hole, n: nat, x: nat)
    requires Cleared(items, a, n) && Disjoint(items) && (forall k <- items :: k < n)
    ensures InHole(items, x) ==> !(a.start <= x < a.end)
    ensures InsideHole(items, x) && a.start <= a.end ==> !(a.start <= x <= a.end)
  {
  }

  /** Once every hole has been visited, the holes represent the old sets with the new range added. */
  lemma InsertRepresents(before: Holes, items: Holes, a: Hole, n: nat, covered: set<nat>, touched: set<nat>)
    requires Represents(before, covered, touched) && Between(before, items, a) && Cleared(items, a, n)
    requires (forall k <- items :: k < n) && a.start <= a.end
    ensures Represents(items, covered + Range(a.start, a.end), touched + Range(a.start, a.end + 1))
  {
    forall x: nat
      ensures InHole(items, x) <==> InHole(before, x) && !(a.start <= x < a.end)
      ensures InsideHole(items, x) <==> InsideHole(before, x) && !(a.start <= x <= a.end)
    {
      ClearedHole(items, a, n, x);
    }
    hide InHole, InsideHole, Disjoint, Cleared;
  }

  ghost predicate Contains(h: Hole, a: Hole) {
    h.start < a.start && a.end < h.end
  }

  /** A slot is left for the second half of a hole, if an insertion splits one. */
  ghost predicate Room(holes: PoolModel<Hole>, a: Hole) {
    holes.Full() ==> forall k <- holes.items :: !Contains(holes.items[k], a)
  }

  lemma TrimContainsNone(items: Holes, i: nat, a: Hole, left: nat, right: nat)
    requires Turn(items, i, a, left, right)
    ensures forall k <- Trim(items, i, a, left, right) :: !Contains(Trim(items, i, a, left, right)[k], a)
  {
  }

  lemma OverlapIsMissing(items: Holes, i: nat, a: Hole)
    requires i in items && Disjoint(items) && Overlaps(a, items[i]) && a.start < a.end
    ensures exists x :: a.start <= x < a.end && InHole(items, x)
  {
    var x := if items[i].start < a.start then a.start else items[i].start;
    assert InHole(items, x);
  }

  /** The positions of `a` that `covered` lacks. */
  ghost predicate BringsNew(covered: set<nat>, a: Hole) {
    exists x :: a.start <= x < a.end && x !in covered
  }

  function Spliced(s: seq<byte>, o: nat, data: seq<byte>): (r: seq<byte>)
    requires o + |data| <= |s|
    ensures |r| == |s|
    ensures forall x :: 0 <= x < |r| ==> r[x] == if o <= x < o + |data| then data[x - o] else s[x]
  {
    s[..o] + data + s[o + |data|..]
  }

  method Punch(hs: PoolModel<Hole>, i: nat, a: Hole) returns (r: PoolModel<Hole>, ghost left: nat, ghost right: nat)
    requires hs.Valid() && i in hs.items && Overlaps(a, hs.items[i])
    requires LeftOver(hs.items[i], a) && RightOver(hs.items[i], a) ==> !hs.Full()
    requires |hs.items| <= hs.capacity
    ensures r.Valid() && r.capacity == hs.capacity && FreeSlots(hs.items, i, a, left, right)
    ensures r.items == Trim(hs.items, i, a, left, right)
  {
    hide PoolModel.Valid, PoolModel.Erase, PoolModel.EmplaceAnywhere, PoolModel.Slot, Overlaps;
    var h := hs.items[i];
    var leftoverLeft := if a.start > h.start then a.start - h.start else 0;
    var leftoverRight := if h.end > a.end then h.end - a.end else 0;
    r := hs.Erase(i);
    MinusCount(hs.items, i);
    left, right := 0, 0;
    if leftoverLeft > 0 {
      left := r.Slot();
      r := r.EmplaceAnywhere(Hole(h.start, h.start + leftoverLeft));
    }
    if leftoverRight > 0 {
      right := r.Slot();
      r := r.EmplaceAnywhere(Hole(h.end - leftoverRight, h.end));
    }
  }

  /** The loop of insert. `removed` tells whether any hole changed. */
  method Fill(hs: PoolModel<Hole>, a: Hole, ghost covered: set<nat>,
              ghost touched: set<nat>) returns (r: PoolModel<Hole>, removed: bool)
    requires hs.Valid() && Represents(hs.items, covered, touched) && a.start <= a.end < NO_END && Room(hs, a)
    ensures r.Valid() && r.capacity == hs.capacity
    ensures Represents(r.items, covered + Range(a.start, a.end), touched + Range(a.start, a.end + 1))
    ensures a.start < a.end ==> (removed <==> BringsNew(covered, a))
  {
    hide Represents, InHole, InsideHole, Disjoint, Overlaps, Trim;
    BetweenItself(hs.items, a, covered, touched);
    r, removed := hs, false;
    var i := 0;
    while i < r.watermark
      invariant r.Valid() && r.capacity == hs.capacity
      invariant Between(hs.items, r.items, a) && Cleared(r.items, a, i)
      invariant !removed ==> r == hs
      invariant removed ==> forall k <- r.items :: !Contains(r.items[k], a)
      invariant removed && a.start < a.end ==> exists x :: a.start <= x < a.end && InHole(hs.items, x)
      decreases hs.capacity - i
    {
      if i in r.items && Overlaps(a, r.items[i]) {
        if a.start < a.end {
          MissingBefore(hs.items, r.items, a, i);
        }
        ghost var items := r.items;
        ghost var left, right;
        r, left, right := Punch(r, i, a);
        TurnLemmas(hs.items, items, i, a, left, right);
        removed := true;
      }
      i := i + 1;
    }
    InsertRepresents(hs.items, r.items, a, i, covered, touched);
    NothingNew(hs.items, r.items, a, i, covered, touched);
  }

  lemma BetweenItself(items: Holes, a: Hole, covered: set<nat>, touched: set<nat>)
    requires Represents(items, covered, touched)
    ensures Between(items, items, a) && Disjoint(items)
  {
  }

  lemma MissingBefore(before: Holes, items: Holes, a: Hole, i: nat)
    requires Between(before, items, a) && i in items && Overlaps(a, items[i]) && a.start < a.end
    ensures exists x :: a.start <= x < a.end && InHole(before, x)
  {
    OverlapIsMissing(items, i, a);
    hide InHole, Disjoint, InsideHole;
  }

  lemma TurnLemmas(before: Holes, items: Holes, i: nat, a: Hole, left: nat, right: nat)
    requires Between(before, items, a) && Cleared(items, a, i) && i in items && Overlaps(a, items[i])
    requires a.start <= a.end
    requires FreeSlots(items, i, a, left, right)
    ensures var items' := Trim(items, i, a, left, right);
      Between(before, items', a) && Cleared(items', a, i + 1) && forall k <- items' :: !Contains(items'[k], a)
  {
    TrimKeepsBetween(before, items, i, a, left, right);
    TrimClears(items, i, a, left, right);
    TrimContainsNone(items, i, a, left, right);
    hide Trim, Disjoint, Overlaps, Cleared, InHole, InsideHole, Contains, FreeSlots;
  }

  lemma NothingNew(before: Holes, items: Holes, a: Hole, n: nat, covered: set<nat>, touched: set<nat>)
    requires Represents(before, covered, touched) && a.end < NO_END && Disjoint(items) && Cleared(items, a, n)
    requires forall k <- items :: k < n
    ensures items == before ==> !BringsNew(covered, a)
    ensures (exists x :: a.start <= x < a.end && InHole(before, x)) ==> BringsNew(covered, a)
  {
    forall x: nat
      ensures items == before && a.start <= x < a.end ==> x in covered
    {
      ClearedHole(items, a, n, x);
    }
  }

  /** Everything up to `n` has been covered and nothing after it touched. */
  ghost predicate Whole(covered: set<nat>, touched: set<nat>, n: nat) {
    covered == Range(0, n) && forall x <- touched :: x <= n
  }

  ghost predicate Bounded(covered: set<nat>, touched: set<nat>, max: nat) {
    (forall x <- covered :: x < max) && (forall x <- touched :: x <= max)
  }

  lemma OneHole(items: Holes, covered: set<nat>, touched: set<nat>, i: nat)
    requires Represents(items, covered, touched) && Bounded(covered, touched, NO_END - 2) && i in items
    requires forall j <- items :: j == i
    ensures Whole(covered, touched, items[i].start)
  {
    var h := items[i];
    forall x: nat
      ensures InHole(items, x) <==> h.start <= x < h.end
      ensures InsideHole(items, x) <==> h.start < x < h.end
    {
      assert h.start <= x < h.end ==> i in items;
    }
    assert InHole(items, NO_END - 1);
    forall x: nat
      ensures x in covered <==> x in Range(0, h.start)
    {
      assert InHole(items, x) <==> h.start <= x < h.end;
    }
    assert covered == Range(0, h.start);
    forall x | x in touched
      ensures x <= h.start
    {
      assert x == 0 || !InsideHole(items, x);
    }
  }

  lemma SameHole(items: Holes, i: nat, j: nat, x: nat)
    requires Disjoint(items) && i in items && j in items && items[i].start <= x < items[i].end
    requires items[j].start <= x < items[j].end
    ensures i == j
  {
  }

  /** If everything up to `n` is covered and nothing after it touched, one hole is left, from `n` on. */
  lemma WholeIsOneHole(items: Holes, covered: set<nat>, touched: set<nat>, n: nat)
    requires Represents(items, covered, touched) && Bounded(covered, touched, NO_END - 2) && Whole(covered, touched, n)
    ensures exists i :: i in items && items[i].start == n && forall j <- items :: j == i
  {
    assert n < NO_END by { assert n > 0 ==> n - 1 in covered; }
    assert InHole(items, n);
    var i :| i in items && items[i].start <= n < items[i].end;
    StartsAt(items, covered, touched, n, i);
    RunsToEnd(items, covered, touched, n, i);
    forall j | j in items
      ensures j == i
    {
      assert InHole(items, items[j].start);
      SameHole(items, i, j, items[j].start);
    }
  }

  lemma StartsAt(items: Holes, covered: set<nat>, touched: set<nat>, n: nat, i: nat)
    requires Represents(items, covered, touched) && Whole(covered, touched, n) && i in items
    requires items[i].start <= n < items[i].end
    ensures items[i].start == n
  {
    assert InHole(items, items[i].start);
  }

  lemma RunsToEnd(items: Holes, covered: set<nat>, touched: set<nat>, n: nat, i: nat)
    requires Represents(items, covered, touched) && Whole(covered, touched, n) && i in items && items[i].start == n
    ensures items[i].end == NO_END
  {
    EndNotInside(items, i);
  }

  lemma EndNotInside(items: Holes, i: nat)
    requires Disjoint(items) && i in items
    ensures !InsideHole(items, items[i].end)
  {
  }

  lemma OneItem(items: Holes, i: nat)
    requires i in items
    ensures |items| == 1 <==> forall j <- items :: j == i
  {
    if forall j <- items :: j == i {
      assert items.Keys == {i};
    }
    if |items| == 1 {
      SubsetOfSameSize({i}, items.Keys);
    }
  }

  /** The insertion loop finds a hole to fill. */
  ghost predicate Reached(items: Holes, a: Hole) {
    exists i :: i in items && Overlaps(a, items[i])
  }

  method AnyOverlap(hs: PoolModel<Hole>, a: Hole) returns (found: bool)
    requires hs.Valid()
    ensures found <==> Reached(hs.items, a)
  {
    for i := 0 to hs.watermark
      invariant forall k <- hs.items :: k < i ==> !Overlaps(a, hs.items[k])
    {
      if i in hs.items && Overlaps(a, hs.items[i]) {
        return true;
      }
    }
    return false;
  }

  /**
   Bytes beyond the end of a buffer of `max` bytes come to be copied exactly if some byte of
   theirs within it is missing or, when they begin beyond it, nothing was inserted up to its end.
   */
  lemma ReachedExactly(items: Holes, covered: set<nat>, touched: set<nat>, start: nat, max: nat)
    requires Represents(items, covered, touched) && Bounded(covered, touched, max) && 0 < max < NO_END && start < NO_END
    ensures Reached(items, Hole(start, max))
      <==> if start < max then BringsNew(covered, Hole(start, max)) else max !in touched
  {
    var a := Hole(start, max);
    if start < max {
      if i :| i in items && Overlaps(a, items[i]) {
        OverlapIsMissing(items, i, a);
      }
      if x :| start <= x < max && x !in covered {
        assert InHole(items, x);
      }
    } else {
      assert InsideHole(items, max) <==> max !in touched;
      if InsideHole(items, max) {
        var i :| i in items && items[i].start < max < items[i].end;
        LastHole(items, covered, touched, max, i);
      }
    }
  }

  lemma LastHole(items: Holes, covered: set<nat>, touched: set<nat>, max: nat, i: nat)
    requires Represents(items, covered, touched) && Bounded(covered, touched, max) && i in items && items[i].end > max
    ensures items[i].end == NO_END
  {
    EndNotInside(items, i);
  }

  class FragBuffer {
    const data: array<byte>
    var holes: PoolModel<Hole>
    ghost var covered: set<nat>
    ghost var touched: set<nat>

    ghost predicate Valid()
      reads this
    {
      && holes.Valid() && holes.capacity == data.Length / 40 && data.Length < NO_END - 2
      && Represents(holes.items, covered, touched) && Bounded(covered, touched, data.Length)
    }

    constructor (size: nat)
      requires 40 <= size < NO_END - 2
      ensures Valid() && data.Length == size && covered == {} && touched == {} && fresh(data)
      ensures holes.items == map[0 := Hole(0, NO_END)]
    {
      data := new byte[size];
      holes := Empty(size / 40).EmplaceAnywhere(Hole(0, NO_END));
      covered, touched := {}, {};
      new;
      OneBigHole(holes.items);
    }

    /**
     insert. The range it records is clipped to the buffer but not the copy, so for bytes
     beyond the end of the buffer it must not come to the copy: `inBounds` says whether it
     does. Where it would, nothing is done here.
     */
    method Insert(start: nat, bytes: seq<byte>) returns (inBounds: bool)
      requires Valid() && start + |bytes| < NO_END
      requires start + |bytes| <= data.Length ==> Room(holes, Hole(start, start + |bytes|))
      modifies this, data
      ensures start + |bytes| <= data.Length ==>
        && covered == old(covered) + Range(start, start + |bytes|)
        && touched == old(touched) + Range(start, start + |bytes| + 1)
        && data[..] == if BringsNew(old(covered), Hole(start, start + |bytes|)) then Spliced(old(data[..]), start,
             bytes) else old(data[..])
      ensures start + |bytes| > data.Length ==> unchanged(this) && unchanged(data)
      ensures inBounds <==> start + |bytes| <= data.Length || !Reached(old(holes.items), Hole(start, data.Length))
      ensures Valid()
    {
      hide Represents, PoolModel.Valid, Room, BringsNew, Spliced;
      if start + |bytes| <= data.Length {
        Store(start, bytes);
        return true;
      }
      var reached := AnyOverlap(holes, Hole(start, data.Length));
      return !reached;
    }

    /** insert, for bytes that fit the buffer. */
    method Store(start: nat, bytes: seq<byte>)
      requires Valid() && start + |bytes| <= data.Length && Room(holes, Hole(start, start + |bytes|))
      modifies this, data
      ensures covered == old(covered) + Range(start, start + |bytes|)
      ensures touched == old(touched) + Range(start, start + |bytes| + 1)
      ensures data[..] == if BringsNew(old(covered), Hole(start, start + |bytes|)) then Spliced(old(data[..]), start,
        bytes) else old(data[..])
      ensures Valid()
    {
      hide Represents, PoolModel.Valid, Room, BringsNew;
      var end := start + |bytes|;
      var removed;
      holes, removed := Fill(holes, Hole(start, end), covered, touched);
      covered, touched := covered + Range(start, end), touched + Range(start, end + 1);
      if removed {
        forall k | 0 <= k < |bytes| {
          data[start + k] := bytes[k];
        }
      }
      NoNews(old(covered), start);
    }

    /** The length of the data if there is no gap in it, else 0. */
    method ContinuousSize() returns (size: nat)
      requires Valid()
      ensures size > 0 ==> Whole(covered, touched, size)
      ensures forall n: nat :: Whole(covered, touched, n) ==> size == n
    {
      hide Represents, PoolModel.Valid, Whole;
      forall n: nat | Whole(covered, touched, n)
        ensures |holes.items| == 1 && forall i <- holes.items :: holes.items[i].start == n
      {
        WholeIsOneHole(holes.items, covered, touched, n);
        var i :| i in holes.items && holes.items[i].start == n && forall j <- holes.items :: j == i;
        OneItem(holes.items, i);
      }
      if |holes.items| != 1 {
        return 0;
      }
      var i :| i in holes.items;
      OneItem(holes.items, i);
      OneHole(holes.items, covered, touched, i);
      size := holes.items[i].start;
    }
  }

  lemma OneBigHole(items: Holes)
    requires items == map[0 := Hole(0, NO_END)]
    ensures Represents(items, {}, {})
  {
    forall x: nat
      ensures InHole(items, x) <==> 0 <= x < NO_END
      ensures InsideHole(items, x) <==> 0 < x < NO_END
    {
      assert 0 in items;
    }
  }

  lemma NoNews(covered: set<nat>, start: nat)
    ensures !BringsNew(covered, Hole(start, start))
  {
  }
}
