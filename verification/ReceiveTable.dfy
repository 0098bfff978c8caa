/**
 The segment table of libraries/net/tcp/receive_queue.cc and the order in which its
 scan reads it, without the bytes.

 The scan always settles on the lowest sequence number, at the lowest index. A
 segment whose number falls below the read cursor is never removed and is always
 the one found, so nothing can be read any more. `Orderly` is the condition on the
 table that rules this out, and `StallsUnlessOrderly` says that it is exact, but for
 tables that are full while the next segment is missing: those are `Jammed` for good.
 */
module ReceiveTables {
  import opened Pools

  const MAX_SEGMENTS: nat := 200

  datatype Segment = Segment(flags: nat, seqnbr: nat, length: nat) {
    function End(): nat {
      seqnbr + length
    }
  }

  type Segments = map<nat, Segment>

  /** The segment the scan settles on: the lowest number, at the lowest index. */
  ghost predicate IsFront(items: Segments, idx: nat) {
    && idx in items
    && forall j <- items :: items[idx].seqnbr < items[j].seqnbr || (items[idx].seqnbr == items[j].seqnbr && idx <= j)
  }

  lemma OnlyFront(items: Segments, idx: nat)
    requires IsFront(items, idx)
    ensures forall i :: IsFront(items, i) ==> i == idx
  {
  }

  lemma FrontIsLive(items: Segments, idx: nat)
    requires IsFront(items, idx)
    ensures idx in items
  {
  }

  lemma {:induction false} FrontExists(items: Segments) returns (idx: nat)
    requires items != map[]
    ensures IsFront(items, idx)
    decreases |items|
  {
    idx :| idx in items;
    var rest := items - {idx};
    MinusCount(items, idx);
    if rest != map[] {
      var front := FrontExists(rest);
      if items[front].seqnbr < items[idx].seqnbr || (items[front].seqnbr == items[idx].seqnbr && front < idx) {
        idx := front;
      }
      assert forall j <- items :: j == idx || j in rest || j == front || items - {j} == rest;
    }
  }

  /** Both can be read: whichever the scan takes first ends no later than the other begins. */
  ghost predicate Compatible(a: Segment, i: nat, b: Segment, j: nat) {
    && (a.seqnbr < b.seqnbr || (a.seqnbr == b.seqnbr && i < j) ==> a.End() <= b.seqnbr)
    && (b.seqnbr < a.seqnbr || (a.seqnbr == b.seqnbr && j < i) ==> b.End() <= a.seqnbr)
  }

  ghost predicate Apart(a: Segment, b: Segment) {
    a.End() <= b.seqnbr || b.End() <= a.seqnbr
  }

  /** For segments with data that is having no byte in common. */
  lemma CompatibleWithData(a: Segment, i: nat, b: Segment, j: nat)
    requires a.length > 0 && b.length > 0 && i != j
    ensures Compatible(a, i, b, j) <==> Apart(a, b)
  {
  }

  /** An empty segment must not be inside one with data, nor at its number with a higher index. */
  lemma CompatibleEmpty(a: Segment, i: nat, b: Segment, j: nat)
    requires a.length == 0 && b.length > 0 && i != j
    ensures Compatible(a, i, b, j) <==> a.seqnbr < b.seqnbr || a.seqnbr >= b.End() || (a.seqnbr == b.seqnbr && i < j)
  {
  }

  datatype Table = Table(items: Segments, cursor: nat)

  /** Some segment is below the cursor. */
  ghost predicate Stalled(t: Table) {
    exists i :: i in t.items && t.items[i].seqnbr < t.cursor
  }

  ghost predicate InSlots(items: Segments) {
    forall i <- items :: i < MAX_SEGMENTS
  }

  /** All slots are in use and nothing is at the cursor. */
  ghost predicate Jammed(t: Table) {
    |t.items| == MAX_SEGMENTS && forall i <- t.items :: t.items[i].seqnbr != t.cursor
  }

  ghost predicate Ahead(t: Table, limit: nat) {
    t.cursor <= limit && forall i <- t.items :: t.cursor <= t.items[i].seqnbr && t.items[i].End() <= limit
  }

  ghost predicate PairsCompatible(items: Segments) {
    forall i, j :: i in items && j in items && i != j ==> Compatible(items[i], i, items[j], j)
  }

  ghost predicate Orderly(t: Table, limit: nat) {
    Ahead(t, limit) && PairsCompatible(t.items)
  }

  // What can happen to a table.

  ghost predicate Reads(t: Table, u: Table) {
    exists idx :: IsFront(t.items, idx) && t.items[idx].seqnbr == t.cursor
      && u == Table(t.items - {idx}, t.cursor + t.items[idx].length)
  }

  ghost predicate Inserts(t: Table, u: Table, slot: nat, g: Segment) {
    slot < MAX_SEGMENTS && slot !in t.items && u == Table(t.items[slot := g], t.cursor)
  }

  /** Any segment may arrive. */
  ghost predicate AnyStep(t: Table, u: Table) {
    Reads(t, u) || exists slot, g :: Inserts(t, u, slot, g)
  }

  /** A segment that suits those queued, ahead of the cursor and up to `limit`. */
  ghost predicate Suits(t: Table, slot: nat, g: Segment, limit: nat) {
    t.cursor <= g.seqnbr && g.End() <= limit && forall h <- t.items :: Compatible(t.items[h], h, g, slot)
  }

  ghost predicate SuitedStep(t: Table, u: Table, limit: nat) {
    Reads(t, u) || exists slot, g :: Inserts(t, u, slot, g) && Suits(t, slot, g, limit)
  }

  ghost predicate AnyRun(run: seq<Table>) {
    run != [] && forall k :: 0 <= k < |run| - 1 ==> AnyStep(run[k], run[k + 1])
  }

  ghost predicate SuitedRun(run: seq<Table>, t: Table, limit: nat) {
    run != [] && run[0] == t && forall k :: 0 <= k < |run| - 1 ==> SuitedStep(run[k], run[k + 1], limit)
  }

  lemma StalledStep(t: Table, u: Table)
    requires Stalled(t) && AnyStep(t, u)
    ensures Stalled(u) && u.cursor == t.cursor && !Reads(t, u)
  {
    var i :| i in t.items && t.items[i].seqnbr < t.cursor;
    if slot, g :| Inserts(t, u, slot, g) {
      assert u.items[i] == t.items[i];
    }
  }

  /** A stalled table stays so and is never read from again, whatever arrives. */
  lemma {:induction false} StallIsForGood(run: seq<Table>, k: nat)
    requires AnyRun(run) && Stalled(run[0]) && k < |run|
    ensures Stalled(run[k]) && run[k].cursor == run[0].cursor
    ensures k + 1 < |run| ==> !Reads(run[k], run[k + 1])
  {
    if k > 0 {
      StallIsForGood(run, k - 1);
      StalledStep(run[k - 1], run[k]);
    }
    if k + 1 < |run| {
      StalledStep(run[k], run[k + 1]);
    }
  }

  lemma InsertOrderly(t: Table, slot: nat, g: Segment, limit: nat)
    requires Orderly(t, limit) && slot !in t.items && t.cursor <= g.seqnbr && g.End() <= limit
    ensures Orderly(Table(t.items[slot := g], t.cursor), limit)
      <==> forall h <- t.items :: Compatible(t.items[h], h, g, slot)
  {
    var items := t.items[slot := g];
    if Orderly(Table(items, t.cursor), limit) {
      forall h | h in t.items
        ensures Compatible(t.items[h], h, g, slot)
      {
        assert items[h] == t.items[h] && items[slot] == g;
      }
    }
  }

  lemma ReadOrderly(t: Table, idx: nat, limit: nat)
    requires Orderly(t, limit) && IsFront(t.items, idx) && t.items[idx].seqnbr == t.cursor
    ensures Orderly(Table(t.items - {idx}, t.cursor + t.items[idx].length), limit)
  {
    forall j | j in t.items && j != idx
      ensures t.items[idx].End() <= t.items[j].seqnbr
    {
      assert Compatible(t.items[idx], idx, t.items[j], j);
    }
  }

  lemma {:induction false} OrderlyRun(run: seq<Table>, t: Table, limit: nat, k: nat)
    requires SuitedRun(run, t, limit) && Orderly(t, limit) && k < |run|
    ensures Orderly(run[k], limit)
  {
    if k > 0 {
      OrderlyRun(run, t, limit, k - 1);
      var a, b := run[k - 1], run[k];
      assert SuitedStep(a, b, limit);
      if Reads(a, b) {
        var idx :| IsFront(a.items, idx) && a.items[idx].seqnbr == a.cursor
          && b == Table(a.items - {idx}, a.cursor + a.items[idx].length);
        ReadOrderly(a, idx, limit);
      } else {
        var slot, g :| Inserts(a, b, slot, g) && Suits(a, slot, g, limit);
        InsertOrderly(a, slot, g, limit);
      }
    }
  }

  /** In an orderly table nothing is readable only if the byte at the cursor has not arrived. */
  lemma OrderlyStopsAtGap(t: Table, limit: nat, idx: nat)
    requires Orderly(t, limit) && IsFront(t.items, idx) && t.items[idx].seqnbr != t.cursor
    ensures !Stalled(t)
    ensures forall i <- t.items :: !(t.items[i].seqnbr <= t.cursor < t.items[i].End())
  {
  }

  /** Nothing can be read from a jammed table and nothing put into it. */
  lemma JammedIsForGood(t: Table, u: Table)
    requires Jammed(t) && InSlots(t.items)
    ensures !AnyStep(t, u)
  {
    CountBelow(t.items.Keys, MAX_SEGMENTS);
  }

  lemma JammedRun(run: seq<Table>, t: Table, limit: nat)
    requires SuitedRun(run, t, limit) && Jammed(t) && InSlots(t.items)
    ensures run == [t]
  {
    if |run| > 1 {
      assert SuitedStep(run[0], run[1], limit);
      assert AnyStep(run[0], run[1]);
      JammedIsForGood(run[0], run[1]);
    }
  }

  // The other direction: from a table that is not orderly some run of well-behaved arrivals stalls it.

  /** A segment that closes the gap before the front one suits the table; reading it only moves the cursor. */
  lemma CloseGap(t: Table, idx: nat, limit: nat) returns (u: Table)
    requires Ahead(t, limit) && IsFront(t.items, idx) && t.cursor < t.items[idx].seqnbr && |t.items| < MAX_SEGMENTS
    ensures SuitedStep(t, u, limit) && SuitedStep(u, t.(cursor := t.items[idx].seqnbr), limit)
  {
    var slot := FreeBelow(t.items.Keys, MAX_SEGMENTS);
    var g := Segment(0, t.cursor, t.items[idx].seqnbr - t.cursor);
    u := Table(t.items[slot := g], t.cursor);
    assert Inserts(t, u, slot, g) && Suits(t, slot, g, limit);
    assert IsFront(u.items, slot);
    assert u.items - {slot} == t.items;
  }

  lemma RunPlus(run: seq<Table>, t: Table, s: Table, limit: nat)
    requires SuitedStep(s, t, limit) && SuitedRun(run, t, limit)
    ensures SuitedRun([s] + run, s, limit) && ([s] + run)[|run|] == run[|run| - 1]
  {
  }

  /** Reads the front segment, with the gap before it closed first if there is one. */
  lemma ReachFront(t: Table, idx: nat, limit: nat, rest: seq<Table>) returns (run: seq<Table>)
    requires Ahead(t, limit) && IsFront(t.items, idx) && |t.items| <= MAX_SEGMENTS && !Jammed(t)
    requires SuitedRun(rest, Table(t.items - {idx}, t.items[idx].End()), limit)
    ensures SuitedRun(run, t, limit) && run[|run| - 1] == rest[|rest| - 1]
  {
    var at := t.(cursor := t.items[idx].seqnbr);
    assert Reads(at, rest[0]) by { assert IsFront(at.items, idx); }
    RunPlus(rest, rest[0], at, limit);
    run := [at] + rest;
    if t.cursor < t.items[idx].seqnbr {
      var u := CloseGap(t, idx, limit);
      RunPlus(run, at, u, limit);
      RunPlus([u] + run, u, t, limit);
      run := [t] + ([u] + run);
    }
  }

  /** If nothing is left behind by reading the front, the clash is among the rest. */
  lemma StillIncompatible(items: Segments, idx: nat)
    requires IsFront(items, idx) && !PairsCompatible(items)
    requires forall j <- items - {idx} :: items[idx].End() <= items[j].seqnbr
    ensures !PairsCompatible(items - {idx})
  {
    var i, j :| i in items && j in items && i != j && !Compatible(items[i], i, items[j], j);
    var rest := items - {idx};
    assert i in rest && j in rest;
    assert rest[i] == items[i] && rest[j] == items[j];
  }

  /** From a table that is not orderly, some run of well-behaved arrivals and reads stalls it. */
  lemma {:induction false} StallRun(t: Table, limit: nat) returns (run: seq<Table>)
    requires Ahead(t, limit) && !PairsCompatible(t.items) && |t.items| <= MAX_SEGMENTS && !Jammed(t)
    ensures SuitedRun(run, t, limit) && Stalled(run[|run| - 1])
    decreases |t.items|
  {
    assert t.items != map[];
    var idx := FrontExists(t.items);
    var after := Table(t.items - {idx}, t.items[idx].End());
    MinusCount(t.items, idx);
    if Stalled(after) {
      run := [after];
    } else {
      StillIncompatible(t.items, idx);
      run := StallRun(after, limit);
    }
    run := ReachFront(t, idx, limit, run);
  }

  /** From an orderly table that is not jammed, some run reads everything. */
  lemma {:induction false} DrainRun(t: Table, limit: nat) returns (run: seq<Table>)
    requires Orderly(t, limit) && |t.items| <= MAX_SEGMENTS && !Jammed(t)
    ensures SuitedRun(run, t, limit) && run[|run| - 1].items == map[]
    decreases |t.items|
  {
    if t.items == map[] {
      return [t];
    }
    var idx := FrontExists(t.items);
    MinusCount(t.items, idx);
    ReadOrderly(t.(cursor := t.items[idx].seqnbr), idx, limit);
    run := DrainRun(Table(t.items - {idx}, t.items[idx].End()), limit);
    run := ReachFront(t, idx, limit, run);
  }

  /** What an orderly table holds can all be read in the end exactly if it is not full with the next byte missing. */
  lemma DrainsUnlessJammed(t: Table, limit: nat)
    requires Orderly(t, limit) && InSlots(t.items)
    ensures !Jammed(t) <==> exists run: seq<Table> :: SuitedRun(run, t, limit) && run[|run| - 1].items == map[]
  {
    CountBelow(t.items.Keys, MAX_SEGMENTS);
    if Jammed(t) {
      forall run: seq<Table> | SuitedRun(run, t, limit)
        ensures run[|run| - 1].items != map[]
      {
        JammedRun(run, t, limit);
      }
    } else {
      var run := DrainRun(t, limit);
      assert SuitedRun(run, t, limit);
    }
  }

  /** Well-behaved arrivals never stall a table exactly if it is orderly, or jammed already. */
  lemma StallsUnlessOrderly(t: Table, limit: nat)
    requires Ahead(t, limit) && InSlots(t.items)
    ensures Orderly(t, limit) || Jammed(t)
      <==> forall run :: SuitedRun(run, t, limit) ==> !Stalled(run[|run| - 1])
  {
    if Orderly(t, limit) {
      forall run | SuitedRun(run, t, limit)
        ensures !Stalled(run[|run| - 1])
      {
        OrderlyRun(run, t, limit, |run| - 1);
      }
    } else if Jammed(t) {
      forall run | SuitedRun(run, t, limit)
        ensures !Stalled(run[|run| - 1])
      {
        JammedRun(run, t, limit);
      }
    } else {
      CountBelow(t.items.Keys, MAX_SEGMENTS);
      var run := StallRun(t, limit);
      assert SuitedRun(run, t, limit);
    }
  }

  /**
   Taking a segment into an orderly table is safe exactly if it is compatible with every
   segment queued, or takes the last slot while there is a gap at the cursor. Otherwise
   the table can be stalled for good by arrivals that are compatible; in the first case
   it never is, and in the second nothing ever happens to it again.
   */
  lemma InsertExactly(t: Table, slot: nat, g: Segment, limit: nat)
    requires Orderly(t, limit) && InSlots(t.items) && slot < MAX_SEGMENTS && slot !in t.items
    requires t.cursor <= g.seqnbr && g.End() <= limit
    ensures var u := Table(t.items[slot := g], t.cursor);
      (forall h <- t.items :: Compatible(t.items[h], h, g, slot)) || Jammed(u)
      <==> forall run :: SuitedRun(run, u, limit) ==> !Stalled(run[|run| - 1])
  {
    var u := Table(t.items[slot := g], t.cursor);
    InsertOrderly(t, slot, g, limit);
    StallsUnlessOrderly(u, limit);
  }
}
