/**
 Reassembly of fragmented datagrams, as libraries/net/ipv4/protocol.cc does it for
 every datagram identifier in parallel.

 What a buffer holds is a function of the fragments that reached it, so the state
 is stated over that history: `Covered` and `Touched` are the positions they reached
 and `ByteAt` the byte a position ended up with.
 */
module Ipv4 {
  import opened Bytes
  import opened FragBuffers

  datatype Ident = Ident(dest: nat, source: nat, id: nat, protocol: nat)

  datatype Fragment = Fragment(offset: nat, data: seq<byte>, last: bool)

  const MAX_DATAGRAM: nat := 10_000
  const MAX_BUFFERS: nat := 10

  ghost function Covered(l: seq<Fragment>): set<nat> {
    if l == [] then {} else
      var f := l[|l| - 1];
      Covered(l[..|l| - 1]) + Range(f.offset, f.offset + |f.data|)
  }

  ghost function Touched(l: seq<Fragment>): set<nat> {
    if l == [] then {} else
      var f := l[|l| - 1];
      Touched(l[..|l| - 1]) + Range(f.offset, f.offset + |f.data| + 1)
  }

  /** Whether the fragment is copied: it is when it brings any position that was missing. */
  ghost predicate Copied(l: seq<Fragment>, f: Fragment) {
    BringsNew(Covered(l), Hole(f.offset, f.offset + |f.data|))
  }

  /** The byte at a covered position: from the last copied fragment that reaches it. */
  ghost function ByteAt(l: seq<Fragment>, x: nat): byte
    requires x in Covered(l)
  {
    var f, l0 := l[|l| - 1], l[..|l| - 1];
    if x in Covered(l0) && !(Copied(l0, f) && f.offset <= x < f.offset + |f.data|) then ByteAt(l0, x)
      else f.data[x - f.offset]
  }

  ghost predicate GotLast(l: seq<Fragment>) {
    exists i :: 0 <= i < |l| && l[i].last
  }

  /** The fragments make up a datagram of `n` bytes, in the eyes of the receiver. */
  ghost predicate Complete(l: seq<Fragment>, n: nat) {
    n > 0 && GotLast(l) && Whole(Covered(l), Touched(l), n)
  }

  // What the sender of a datagram `d` sends.

  ghost predicate PartOf(f: Fragment, d: seq<byte>) {
    && f.offset + |f.data| <= |d|
    && f.data == d[f.offset..f.offset + |f.data|]
    && (f.last ==> f.offset + |f.data| == |d|)
  }

  ghost predicate PartsOf(l: seq<Fragment>, d: seq<byte>) {
    forall i :: 0 <= i < |l| ==> PartOf(l[i], d)
  }

  lemma {:induction false} PartsStayWithin(l: seq<Fragment>, d: seq<byte>)
    requires PartsOf(l, d)
    ensures forall x <- Covered(l) :: x < |d|
    ensures forall x <- Touched(l) :: x <= |d|
  {
    if l != [] {
      PartsStayWithin(l[..|l| - 1], d);
    }
  }

  /** Duplicates and overlaps do no harm: every covered position holds its byte of the datagram. */
  lemma {:induction false} PartsCarryTheData(l: seq<Fragment>, d: seq<byte>, x: nat)
    requires PartsOf(l, d) && x in Covered(l)
    ensures x < |d| && ByteAt(l, x) == d[x]
  {
    PartsStayWithin(l, d);
    var l0 := l[..|l| - 1];
    if x in Covered(l0) {
      PartsCarryTheData(l0, d, x);
    }
  }

  lemma {:induction false} LastReachesTheEnd(l: seq<Fragment>, d: seq<byte>, i: nat)
    requires PartsOf(l, d) && i < |l| && l[i].last
    ensures |d| in Touched(l)
    ensures l[i].data != [] ==> |d| - 1 in Covered(l)
  {
    var l0 := l[..|l| - 1];
    if i < |l0| {
      LastReachesTheEnd(l0, d, i);
    }
  }

  /**
   Fragments of one datagram, in any order and with any duplicates and overlaps,
   look complete exactly when the last one and every byte have arrived.
   */
  lemma CompleteMeansAll(l: seq<Fragment>, d: seq<byte>, n: nat)
    requires PartsOf(l, d)
    ensures Complete(l, n) <==> n == |d| > 0 && GotLast(l) && Covered(l) == Range(0, |d|)
  {
    PartsStayWithin(l, d);
    if Complete(l, n) {
      var i :| 0 <= i < |l| && l[i].last;
      LastReachesTheEnd(l, d, i);
      assert n - 1 in Covered(l);
    }
  }

  /** The bytes a complete history stands for. */
  ghost predicate Assembles(l: seq<Fragment>, s: seq<byte>) {
    Complete(l, |s|) && forall x :: 0 <= x < |s| ==> x in Covered(l) && s[x] == ByteAt(l, x)
  }

  /** What is forwarded for the fragments of a datagram is that datagram. */
  lemma ForwardsTheDatagram(l: seq<Fragment>, d: seq<byte>, s: seq<byte>)
    requires PartsOf(l, d) && Assembles(l, s)
    ensures s == d
  {
    CompleteMeansAll(l, d, |s|);
    forall x | 0 <= x < |s|
      ensures s[x] == d[x]
    {
      PartsCarryTheData(l, d, x);
    }
  }

  /** A fragment list extended by one. */
  lemma Extended(l: seq<Fragment>, f: Fragment)
    ensures Covered(l + [f]) == Covered(l) + Range(f.offset, f.offset + |f.data|)
    ensures Touched(l + [f]) == Touched(l) + Range(f.offset, f.offset + |f.data| + 1)
    ensures GotLast(l + [f]) <==> GotLast(l) || f.last
  {
    assert (l + [f])[..|l|] == l;
    if GotLast(l) {
      var i :| 0 <= i < |l| && l[i].last;
      assert (l + [f])[i].last;
    }
    if f.last {
      assert (l + [f])[|l|].last;
    }
  }

  lemma ByteExtended(l: seq<Fragment>, f: Fragment, x: nat)
    requires x in Covered(l + [f])
    ensures x in Covered(l) || f.offset <= x < f.offset + |f.data|
    ensures ByteAt(l + [f], x)
      == if x in Covered(l) && !(Copied(l, f) && f.offset <= x < f.offset + |f.data|) then ByteAt(l, x)
        else f.data[x - f.offset]
  {
    assert (l + [f])[..|l|] == l;
  }

  /** The buffer bytes follow the history when a fragment is added to both. */
  lemma DataExtended(l: seq<Fragment>, f: Fragment, before: seq<byte>, after: seq<byte>)
    requires forall x <- Covered(l) :: x < |before| && before[x] == ByteAt(l, x)
    requires f.offset + |f.data| <= |before|
    requires after == if Copied(l, f) then Spliced(before, f.offset, f.data) else before
    ensures forall x <- Covered(l + [f]) :: x < |after| && after[x] == ByteAt(l + [f], x)
  {
    forall x | x in Covered(l + [f])
      ensures x < |after| && after[x] == ByteAt(l + [f], x)
    {
      ByteExtended(l, f, x);
      assert x in Covered(l) || Copied(l, f);
    }
  }

  datatype Buffer = Buffer(receivedLast: bool, frag: FragBuffer)

  /** The buffer is what the fragments `l` have made of it. */
  ghost predicate Holding(b: Buffer, l: seq<Fragment>)
    reads b.frag, b.frag.data
  {
    && b.frag.Valid() && b.frag.data.Length == MAX_DATAGRAM
    && b.frag.covered == Covered(l) && b.frag.touched == Touched(l) && b.receivedLast == GotLast(l)
    && forall x <- Covered(l) :: x < MAX_DATAGRAM && b.frag.data[x] == ByteAt(l, x)
  }

  method NewBuffer() returns (b: Buffer)
    ensures Holding(b, []) && fresh(b.frag) && fresh(b.frag.data)
    ensures forall a: Hole :: Room(b.frag.holes, a)
    ensures forall f: Fragment :: f.offset < NO_END ==> (InBounds(b.frag.holes.items, f) <==> Fits(f))
  {
    var frag := new FragBuffer(MAX_DATAGRAM);
    b := Buffer(false, frag);
  }

  predicate Fits(f: Fragment) {
    f.offset + |f.data| <= MAX_DATAGRAM
  }

  /** A fragment beyond the buffer that is not copied counts for its last flag only. */
  function Effective(f: Fragment): Fragment {
    if Fits(f) then f else Fragment(MAX_DATAGRAM, [], f.last)
  }

  /** Whether taking in the fragment keeps within a buffer with these holes. */
  ghost predicate InBounds(items: Holes, f: Fragment) {
    Fits(f) || !Reached(items, Hole(f.offset, MAX_DATAGRAM))
  }

  lemma {:induction false} NextTouched(l: seq<Fragment>, x: nat)
    requires x in Covered(l)
    ensures x + 1 in Touched(l)
  {
    var l0 := l[..|l| - 1];
    if x in Covered(l0) {
      NextTouched(l0, x);
    }
  }

  /** Ignoring a fragment means that the end of the buffer had been reached before. */
  lemma IgnoredAtEnd(items: Holes, l: seq<Fragment>, f: Fragment)
    requires Represents(items, Covered(l), Touched(l)) && Bounded(Covered(l), Touched(l), MAX_DATAGRAM)
    requires !Fits(f) && f.offset + |f.data| < NO_END && InBounds(items, f)
    ensures MAX_DATAGRAM in Touched(l)
  {
    ReachedExactly(items, Covered(l), Touched(l), f.offset, MAX_DATAGRAM);
    if f.offset < MAX_DATAGRAM {
      assert MAX_DATAGRAM - 1 in Covered(l);
      NextTouched(l, MAX_DATAGRAM - 1);
    }
  }

  method AddFragment(b: Buffer, f: Fragment, ghost l: seq<Fragment>) returns (b': Buffer, inBounds: bool)
    requires Holding(b, l) && f.offset + |f.data| < NO_END
    requires Fits(f) ==> Room(b.frag.holes, Hole(f.offset, f.offset + |f.data|))
    modifies b.frag, b.frag.data
    ensures inBounds <==> old(InBounds(b.frag.holes.items, f))
    ensures b'.frag == b.frag && (inBounds ==> Holding(b', l + [Effective(f)]))
    ensures !inBounds ==> b' == b && Holding(b, l)
  {
    hide Holding, Room, InBounds, Effective;
    FitsInBounds(b.frag.holes.items, f);
    b' := b.(receivedLast := b.receivedLast || f.last);
    if Fits(f) {
      KeepFragment(b, f, l);
      inBounds := true;
    } else {
      inBounds := IgnoreFragment(b, f, l);
      b' := if inBounds then b' else b;
    }
  }

  lemma FitsInBounds(items: Holes, f: Fragment)
    ensures Fits(f) ==> InBounds(items, f) && Effective(f) == f
  {
  }

  method KeepFragment(b: Buffer, f: Fragment, ghost l: seq<Fragment>)
    requires Holding(b, l) && Fits(f) && Room(b.frag.holes, Hole(f.offset, f.offset + |f.data|))
    modifies b.frag, b.frag.data
    ensures Holding(b.(receivedLast := b.receivedLast || f.last), l + [f])
  {
    hide FragBuffer.Valid, Room, Reached;
    Extended(l, f);
    ghost var before := b.frag.data[..];
    var inBounds := b.frag.Insert(f.offset, f.data);
    DataExtended(l, f, before, b.frag.data[..]);
    assert forall x <- Covered(l + [f]) :: b.frag.data[x] == b.frag.data[..][x];
  }

  method IgnoreFragment(b: Buffer, f: Fragment, ghost l: seq<Fragment>) returns (inBounds: bool)
    requires Holding(b, l) && f.offset + |f.data| < NO_END && !Fits(f)
    modifies b.frag, b.frag.data
    ensures inBounds <==> old(InBounds(b.frag.holes.items, f))
    ensures Holding(b, l) && (inBounds ==> Holding(b.(receivedLast := b.receivedLast || f.last), l + [Effective(f)]))
  {
    hide Represents, BringsNew, Reached;
    Extended(l, Effective(f));
    inBounds := b.frag.Insert(f.offset, f.data);
    if inBounds {
      IgnoredAtEnd(b.frag.holes.items, l, f);
      ghost var e := Effective(f);
      assert Range(e.offset, e.offset + 1) <= Touched(l);
      forall x | x in Covered(l + [e])
        ensures x in Covered(l) && ByteAt(l + [e], x) == ByteAt(l, x)
      {
        ByteExtended(l, e, x);
      }
    }
  }

  /** The datagram, if there is one. */
  method Finish(b: Buffer, ghost l: seq<Fragment>) returns (forwarded: Option<seq<byte>>)
    requires Holding(b, l)
    ensures forwarded.Some? ==> Assembles(l, forwarded.value)
    ensures forwarded.None? ==> forall n :: !Complete(l, n)
  {
    hide FragBuffer.Valid;
    var size := b.frag.ContinuousSize();
    if b.receivedLast && size > 0 {
      assert forall x :: 0 <= x < size ==> x in Range(0, size);
      forwarded := Some(b.frag.data[..size]);
    } else {
      forwarded := None;
    }
  }

  type Buffers = map<Ident, Buffer>
  type Log = map<Ident, seq<Fragment>>

  ghost predicate Apart(buffers: Buffers) {
    forall a, b :: a in buffers && b in buffers && a != b ==>
      buffers[a].frag != buffers[b].frag && buffers[a].frag.data != buffers[b].frag.data
  }

  /** Every identifier has its own buffer, and its own history. */
  ghost predicate Owned(buffers: Buffers, log: Log, repr: set<object>) {
    && |buffers| <= MAX_BUFFERS && Apart(buffers)
    && (forall id :: id in log <==> id in buffers)
    && (forall id <- buffers :: buffers[id].frag in repr && buffers[id].frag.data in repr)
  }

  ghost predicate AllHold(buffers: Buffers, log: Log, repr: set<object>)
    requires Owned(buffers, log, repr)
    reads repr
  {
    forall id <- buffers :: Holding(buffers[id], log[id])
  }

  lemma CountOne(m: Buffers, ident: Ident, b: Buffer)
    ensures |m[ident := b]| == if ident in m then |m| else |m| + 1
  {
    if ident in m {
      assert m[ident := b].Keys == m.Keys;
    } else {
      assert m[ident := b].Keys == m.Keys + {ident};
    }
  }

  lemma OwnedInsert(buffers: Buffers, log: Log, repr: set<object>, ident: Ident, b: Buffer)
    requires Owned(buffers, log, repr) && |buffers| < MAX_BUFFERS && ident !in buffers && b.frag !in repr
    requires b.frag.data !in repr
    ensures Owned(buffers[ident := b], log[ident := []], repr + {b.frag, b.frag.data})
  {
    CountOne(buffers, ident, b);
  }

  lemma OwnedUpdate(buffers: Buffers, log: Log, repr: set<object>, ident: Ident, b: Buffer, l: seq<Fragment>)
    requires Owned(buffers, log, repr) && ident in buffers && b.frag == buffers[ident].frag
    ensures Owned(buffers[ident := b], log[ident := l], repr)
  {
    CountOne(buffers, ident, b);
  }

  lemma InRepr(buffers: Buffers, log: Log, repr: set<object>)
    requires Owned(buffers, log, repr)
    ensures forall id <- buffers :: id in log && buffers[id].frag in repr && buffers[id].frag.data in repr
  {
  }

  lemma Others(buffers: Buffers, log: Log, repr: set<object>, ident: Ident)
    requires Owned(buffers, log, repr) && ident in buffers
    ensures ident in log && buffers[ident].frag in repr && buffers[ident].frag.data in repr
    ensures forall id <- buffers :: id in log && (id != ident ==>
      buffers[id].frag != buffers[ident].frag && buffers[id].frag.data != buffers[ident].frag.data)
  {
  }

  lemma OwnedErase(buffers: Buffers, log: Log, repr: set<object>, ident: Ident)
    requires Owned(buffers, log, repr) && ident in buffers
    ensures Owned(buffers - {ident}, log - {ident}, repr)
  {
    assert (buffers - {ident}).Keys == buffers.Keys - {ident};
  }

  class Reassembler {
    var buffers: Buffers
    /** The fragments in each buffer, in order of arrival. */
    ghost var log: Log
    ghost var repr: set<object>

    ghost predicate Valid()
      reads this, repr
    {
      this !in repr && Owned(buffers, log, repr) && AllHold(buffers, log, repr)
    }

    constructor ()
      ensures Valid() && buffers == map[] && log == map[] && repr == {}
    {
      buffers, log, repr := map[], map[], {};
    }

    /** Makes sure there is a buffer for the datagram. */
    method FindOrInsert(ident: Ident)
      requires Valid() && |buffers| < MAX_BUFFERS
      modifies this
      ensures ident in old(buffers) ==> unchanged(this)
      ensures ident !in old(buffers) ==>
        log == old(log)[ident := []] && ident in buffers && buffers == old(buffers)[ident := buffers[ident]]
      ensures ident !in old(buffers) ==> forall a: Hole :: Room(buffers[ident].frag.holes, a)
      ensures ident !in old(buffers) ==>
        forall f: Fragment :: f.offset < NO_END ==> (InBounds(buffers[ident].frag.holes.items, f) <==> Fits(f))
      ensures fresh(repr - old(repr))
      ensures Valid()
    {
      hide Holding, Room, Owned, Apart, InBounds;
      if ident !in buffers {
        InRepr(buffers, log, repr);
        var b := NewBuffer();
        OwnedInsert(buffers, log, repr, ident, b);
        buffers, log, repr := buffers[ident := b], log[ident := []], repr + {b.frag, b.frag.data};
        assert AllHold(buffers, log, repr);
      }
    }

    method Store(ident: Ident, f: Fragment) returns (inBounds: bool)
      requires Valid() && ident in buffers && f.offset + |f.data| < NO_END
      requires Fits(f) ==> Room(buffers[ident].frag.holes, Hole(f.offset, f.offset + |f.data|))
      modifies this`buffers, this`log, buffers[ident].frag, buffers[ident].frag.data
      ensures inBounds <==> old(InBounds(buffers[ident].frag.holes.items, f))
      ensures inBounds ==> log == old(log)[ident := old(log)[ident] + [Effective(f)]]
      ensures ident in buffers && buffers == old(buffers)[ident := buffers[ident]]
      ensures buffers[ident].frag == old(buffers)[ident].frag
      ensures Valid()
    {
      hide Holding, Room, Owned, InBounds, Effective;
      Others(buffers, log, repr, ident);
      var b;
      b, inBounds := AddFragment(buffers[ident], f, log[ident]);
      ghost var l := if inBounds then log[ident] + [Effective(f)] else log[ident];
      OwnedUpdate(buffers, log, repr, ident, b, l);
      buffers, log := buffers[ident := b], log[ident := l];
      assert AllHold(buffers, log, repr);
    }

    /** Whether taking in the fragment keeps within the buffer of its datagram. */
    ghost predicate Safe(ident: Ident, f: Fragment)
      requires Valid()
      reads this, repr
    {
      Fits(f) || (ident in buffers && InBounds(buffers[ident].frag.holes.items, f))
    }

    ghost function History(ident: Ident, f: Fragment): seq<Fragment>
      reads this
    {
      (if ident in log then log[ident] else []) + [Effective(f)]
    }

    /** Drops the buffer of a forwarded datagram. */
    method Erase(ident: Ident)
      requires Valid() && ident in buffers
      modifies this`buffers, this`log
      ensures buffers == old(buffers) - {ident} && log == old(log) - {ident}
      ensures Valid()
    {
      hide Holding, Owned;
      OwnedErase(buffers, log, repr, ident);
      InRepr(buffers, log, repr);
      buffers, log := buffers - {ident}, log - {ident};
    }

    /**
     Takes in a fragment and forwards the datagram if it is complete. Where the source would
     copy beyond the buffer the model stops, with `inBounds` false.
     */
    method OnFragment(ident: Ident, f: Fragment) returns (forwarded: Option<seq<byte>>, inBounds: bool)
      requires Valid() && |buffers| < MAX_BUFFERS && f.offset + |f.data| < NO_END
      requires ident in buffers && Fits(f) ==> Room(buffers[ident].frag.holes, Hole(f.offset, f.offset + |f.data|))
      modifies this, repr
      ensures inBounds <==> old(Safe(ident, f))
      ensures forwarded.Some? ==>
        inBounds && Assembles(old(History(ident, f)), forwarded.value) && log == old(log) - {ident}
      ensures forwarded.None? && inBounds ==>
        (forall n :: !Complete(old(History(ident, f)), n)) && log == old(log)[ident := old(History(ident, f))]
      ensures fresh(repr - old(repr))
      ensures Valid()
    {
      hide Holding, Room, Owned, AllHold, Assembles, Complete, Safe, Effective;
      ghost var l := History(ident, f);
      LogDrop(log, ident, l);
      inBounds := Gather(ident, f);
      if !inBounds {
        return None, false;
      }
      Held(buffers, log, repr, ident);
      forwarded := Finish(buffers[ident], l);
      if forwarded.Some? {
        Erase(ident);
      }
    }

    /** Adds the fragment to its buffer. */
    method Gather(ident: Ident, f: Fragment) returns (inBounds: bool)
      requires Valid() && |buffers| < MAX_BUFFERS && f.offset + |f.data| < NO_END
      requires ident in buffers && Fits(f) ==> Room(buffers[ident].frag.holes, Hole(f.offset, f.offset + |f.data|))
      modifies this, repr
      ensures inBounds <==> old(Safe(ident, f))
      ensures inBounds ==> log == old(log)[ident := old(History(ident, f))] && ident in buffers
      ensures fresh(repr - old(repr))
      ensures Valid()
    {
      hide Holding, Room, Owned, AllHold, InBounds, Effective;
      KnownIdents(buffers, log, repr);
      LogAdd(log, ident, History(ident, f));
      if ident in buffers {
        FitsInBounds(buffers[ident].frag.holes.items, f);
      }
      FindOrInsert(ident);
      Others(buffers, log, repr, ident);
      inBounds := Store(ident, f);
    }

    /** The fragment path of on_receive, from the flags and offset field on. */
    method OnReceive(ident: Ident, field: nat, payload: seq<byte>)
      returns (forwarded: Option<seq<byte>>, inBounds: bool)
      requires Valid() && field < 0x1_0000 && |payload| < 0x1_0000
      requires var f := Received(field, payload);
        ident in buffers && Fits(f) ==> Room(buffers[ident].frag.holes, Hole(f.offset, f.offset + |f.data|))
      modifies this, repr
      ensures inBounds
        <==> !IsFragment(field) || |old(buffers)| >= MAX_BUFFERS || old(Safe(ident, Received(field, payload)))
      ensures !IsFragment(field) ==> forwarded == Some(payload) && log == old(log)
      ensures IsFragment(field) && |old(buffers)| >= MAX_BUFFERS ==> forwarded == None && log == old(log)
      ensures IsFragment(field) && |old(buffers)| < MAX_BUFFERS && inBounds ==>
        var l := old(History(ident, Received(field, payload)));
        && (forwarded.Some? ==> Assembles(l, forwarded.value) && log == old(log) - {ident})
        && (forwarded.None? ==> (forall n :: !Complete(l, n)) && log == old(log)[ident := l])
      ensures fresh(repr - old(repr))
      ensures Valid()
    {
      hide Valid, Room, Assembles, Complete, MoreFragments, Safe, Effective;
      if !IsFragment(field) {
        return Some(payload), true;
      }
      if |buffers| >= MAX_BUFFERS {
        return None, true;
      }
      forwarded, inBounds := OnFragment(ident, Received(field, payload));
    }
  }

  function Received(field: nat, payload: seq<byte>): Fragment {
    Fragment(Offset(field), payload, !MoreFragments(field))
  }

  lemma LogAdd(log: Log, ident: Ident, l: seq<Fragment>)
    ensures log[ident := []][ident := l] == log[ident := l]
  {
  }

  lemma LogDrop(log: Log, ident: Ident, l: seq<Fragment>)
    ensures log[ident := l] - {ident} == log - {ident}
  {
  }

  lemma KnownIdents(buffers: Buffers, log: Log, repr: set<object>)
    requires Owned(buffers, log, repr)
    ensures forall id :: id in log <==> id in buffers
  {
  }

  lemma Held(buffers: Buffers, log: Log, repr: set<object>, ident: Ident)
    requires Owned(buffers, log, repr) && AllHold(buffers, log, repr) && ident in buffers
    ensures ident in log && Holding(buffers[ident], log[ident])
  {
  }

  // The 16-bit field with the flags and the offset, in units of 8 bytes.

  predicate MoreFragments(field: nat) {
    field / 0x1000 / 2 % 2 == 1
  }

  function Offset(field: nat): nat {
    field % 0x2000 * 8
  }

  /** Any bit set will do, so a whole datagram with only the don't-fragment flag set takes this path too. */
  predicate IsFragment(field: nat) {
    MoreFragments(field) || field != 0
  }

  /** What a receiver with the fragments `l` of one datagram `d` forwards, and when. */
  lemma Delivery(l: seq<Fragment>, d: seq<byte>, forwarded: Option<seq<byte>>)
    requires PartsOf(l, d)
    requires forwarded.Some? ==> Assembles(l, forwarded.value)
    requires forwarded.None? ==> forall n :: !Complete(l, n)
    ensures forwarded == if d != [] && GotLast(l) && Covered(l) == Range(0, |d|) then Some(d) else None
  {
    CompleteMeansAll(l, d, |d|);
    if forwarded.Some? {
      CompleteMeansAll(l, d, |forwarded.value|);
      ForwardsTheDatagram(l, d, forwarded.value);
    }
  }

  // The sender's side of the field, as in section 3.1 of RFC 791.

  function Field(offset: nat, more: bool, dontFragment: bool): nat {
    offset / 8 + (if more then 0x2000 else 0) + (if dontFragment then 0x4000 else 0)
  }

  /** The receiver reads from the field what the sender put there. */
  lemma FieldRead(offset: nat, more: bool, dontFragment: bool, payload: seq<byte>)
    requires offset % 8 == 0 && offset < 0x1_0000
    ensures var field := Field(offset, more, dontFragment);
      && field < 0x1_0000
      && Received(field, payload) == Fragment(offset, payload, !more)
      && (IsFragment(field) <==> offset > 0 || more || dontFragment)
  {
    var field := Field(offset, more, dontFragment);
    assert field % 0x2000 == offset / 8;
    assert field / 0x1000 == offset / 8 / 0x1000 + (if more then 2 else 0) + (if dontFragment then 4 else 0);
  }

  /** A piece of a datagram, as the sender cuts it. */
  datatype Piece = Piece(offset: nat, length: nat, dontFragment: bool) {
    predicate Holds(x: nat) {
      offset <= x < offset + length
    }

    ghost predicate CutFrom(d: seq<byte>) {
      offset % 8 == 0 && offset < 0x1_0000 && offset + length <= |d|
    }
  }

  /** What the receiver makes of a piece; only one that reaches the end goes without the more-fragments flag. */
  ghost function Arriving(p: Piece, d: seq<byte>): Fragment
    requires p.CutFrom(d)
  {
    Received(Field(p.offset, p.offset + p.length < |d|, p.dontFragment), d[p.offset..p.offset + p.length])
  }

  lemma {:induction false} CoveredIs(l: seq<Fragment>, x: nat)
    ensures x in Covered(l) <==> exists i :: 0 <= i < |l| && l[i].offset <= x < l[i].offset + |l[i].data|
  {
    if l != [] {
      var l0 := l[..|l| - 1];
      CoveredIs(l0, x);
      assert forall i :: 0 <= i < |l0| ==> l0[i] == l[i];
    }
  }

  /** Position `x` of the datagram is in one of the pieces. */
  ghost predicate Sent(ps: seq<Piece>, x: nat) {
    exists i :: 0 <= i < |ps| && ps[i].Holds(x)
  }

  ghost predicate LastSent(ps: seq<Piece>, n: nat) {
    exists i :: 0 <= i < |ps| && ps[i].offset + ps[i].length == n
  }

  /** The pieces of a datagram, in any order: it is forwarded exactly when the last and all its bytes are among them. */
  lemma PiecesDeliver(ps: seq<Piece>, l: seq<Fragment>, d: seq<byte>, forwarded: Option<seq<byte>>)
    requires |l| == |ps| && forall i :: 0 <= i < |ps| ==> ps[i].CutFrom(d) && l[i] == Arriving(ps[i], d)
    requires forwarded.Some? ==> Assembles(l, forwarded.value)
    requires forwarded.None? ==> forall n :: !Complete(l, n)
    ensures forwarded ==
      if d != [] && LastSent(ps, |d|) && (forall x: nat :: x < |d| ==> Sent(ps, x)) then Some(d) else None
  {
    hide Assembles, Complete, Covered, Sent, PartOf;
    PiecesAre(ps, l, d);
    PiecesCover(ps, l, d);
    Delivery(l, d, forwarded);
  }

  lemma PiecesAre(ps: seq<Piece>, l: seq<Fragment>, d: seq<byte>)
    requires |l| == |ps| && forall i :: 0 <= i < |ps| ==> ps[i].CutFrom(d) && l[i] == Arriving(ps[i], d)
    ensures PartsOf(l, d) && (GotLast(l) <==> LastSent(ps, |d|))
    ensures forall i :: 0 <= i < |ps| ==> l[i].offset == ps[i].offset && |l[i].data| == ps[i].length
  {
    forall i | 0 <= i < |ps|
      ensures l[i].offset == ps[i].offset && |l[i].data| == ps[i].length && PartOf(l[i], d)
      ensures l[i].last <==> ps[i].offset + ps[i].length == |d|
    {
      FieldRead(ps[i].offset, ps[i].offset + ps[i].length < |d|, ps[i].dontFragment,
                d[ps[i].offset..ps[i].offset + ps[i].length]);
    }
    hide Field, Received, PartOf, Arriving;
  }

  lemma PiecesCover(ps: seq<Piece>, l: seq<Fragment>, d: seq<byte>)
    requires |l| == |ps| && PartsOf(l, d)
    requires forall i :: 0 <= i < |ps| ==> l[i].offset == ps[i].offset && |l[i].data| == ps[i].length
    ensures Covered(l) == Range(0, |d|) <==> forall x: nat :: x < |d| ==> Sent(ps, x)
  {
    PartsStayWithin(l, d);
    hide Covered, PartsOf;
    forall x: nat
      ensures x in Covered(l) <==> Sent(ps, x)
    {
      CoveredIs(l, x);
      if i :| 0 <= i < |l| && l[i].offset <= x < l[i].offset + |l[i].data| {
        assert ps[i].Holds(x);
      }
    }
    hide Sent;
    assert forall x: nat :: x in Range(0, |d|) <==> x < |d|;
  }

  lemma {:induction false} TouchedBound(l: seq<Fragment>, n: nat)
    ensures (forall x <- Touched(l) :: x <= n) <==> forall i :: 0 <= i < |l| ==> l[i].offset + |l[i].data| <= n
  {
    if l != [] {
      var l0, f := l[..|l| - 1], l[|l| - 1];
      TouchedBound(l0, n);
      assert f.offset + |f.data| in Touched(l);
      assert forall x <- Touched(l0) :: x in Touched(l);
      assert forall i :: 0 <= i < |l| ==> l[i] == if i < |l0| then l0[i] else f;
    }
  }

  lemma {:induction false} CoveredEnd(l: seq<Fragment>, i: nat)
    requires i < |l| && l[i].data != []
    ensures l[i].offset + |l[i].data| - 1 in Covered(l)
  {
    if i < |l| - 1 {
      CoveredEnd(l[..|l| - 1], i);
    }
  }

  /**
   With all the bytes and the last fragment there, what can still hold a datagram
   back for good is a fragment without data beyond its end, and nothing else.
   */
  lemma HeldBackByEmptyFragment(l: seq<Fragment>, n: nat)
    requires n > 0 && GotLast(l) && Covered(l) == Range(0, n)
    ensures Complete(l, n) <==> forall i :: 0 <= i < |l| && l[i].data == [] ==> l[i].offset <= n
  {
    hide Covered, Touched, GotLast;
    TouchedBound(l, n);
    if i :| 0 <= i < |l| && l[i].data == [] && l[i].offset > n {
      assert l[i].offset + |l[i].data| > n;
    } else {
      forall i | 0 <= i < |l|
        ensures l[i].offset + |l[i].data| <= n
      {
        if l[i].data != [] {
          CoveredEnd(l, i);
          assert l[i].offset + |l[i].data| - 1 in Range(0, n);
        } else {
          assert l[i].offset <= n;
        }
      }
      assert forall x <- Touched(l) :: x <= n;
    }
  }
}
