/**
 The receive queue of libraries/net/tcp/receive_queue.cc: segments arrive in any
 order and are read in sequence.

 Segments are kept in a table, their bytes in a ring buffer at the distance of the
 segment from the read cursor. `Carries` says what that means for the segments of
 one byte stream, and every operation keeps it.
 */
module ReceiveQueues {
  import opened Bytes
  import opened Pools
  import opened RingBuffers
  import opened ReceiveTables

  const WINDOW: nat := 0xFFFF
  const MAX_SEQNBR: nat := UINT32 - 1

  /** How far `b` is after `a` among the 32-bit sequence numbers. */
  function Distance(a: nat, b: nat): (d: nat)
    ensures a < UINT32 && b < UINT32 ==> d < UINT32 && (a + d) % UINT32 == b
  {
    (b + UINT32 - a) % UINT32
  }

  /** The cast of a distance to int. */
  function AsInt(d: nat): int {
    if d < INT_LIMIT then d else d - UINT32
  }

  /** The window test of insert, with the two branches and the 32-bit sum of the source. */
  predicate PassesWindow(cursor: nat, seqnbr: nat)
    ensures cursor < UINT32 && seqnbr < UINT32 ==>
      (PassesWindow(cursor, seqnbr) <==> seqnbr >= cursor || Distance(cursor, seqnbr) < WINDOW)
  {
    if MAX_SEQNBR - cursor < WINDOW then
      !(seqnbr < cursor && seqnbr >= (cursor + WINDOW) % UINT32)
    else
      !(seqnbr < cursor)
  }

  /** What the whole test amounts to, on either side of the border of the sequence numbers. */
  lemma AcceptsExactlyTheWindow(cursor: nat, seqnbr: nat, length: nat, size: nat)
    requires cursor < UINT32 && seqnbr < UINT32 && 0 < length && Distance(cursor, seqnbr) + length < UINT32
    ensures var offset := AsInt(Distance(cursor, seqnbr));
      PassesWindow(cursor, seqnbr) && offset >= -1 && (if offset == -1 then size else offset) + length <= WINDOW
      <==> Distance(cursor, seqnbr) + length <= WINDOW
  {
    assert Distance(cursor, seqnbr) == if seqnbr >= cursor then seqnbr - cursor else seqnbr + UINT32 - cursor;
  }

  ghost predicate HasNumbered(items: Segments) {
    exists i :: i in items && items[i].seqnbr < MAX_SEQNBR
  }

  // One byte stream, the segments of which are in the queue. Its first byte has the number
  // `start`, counted so that the cursor is below 2^32: each time the cursor passes that
  // border `start` falls by 2^32, and it is negative from then on.

  /** A segment of the stream, which may be empty and may end past the border. */
  ghost predicate OfStream(g: Segment, stream: seq<byte>, start: int) {
    start <= g.seqnbr < MAX_SEQNBR && g.End() <= start + |stream|
  }

  /** The bytes of `g` are at their distance from the cursor in the buffer. */
  ghost predicate Stored(g: Segment, contents: seq<byte>, cursor: nat, stream: seq<byte>, start: int)
    requires OfStream(g, stream, start)
  {
    && cursor <= g.seqnbr
    && (g.length > 0 ==>
          && g.End() - cursor <= |contents|
          && contents[g.seqnbr - cursor..g.End() - cursor] == stream[g.seqnbr - start..g.End() - start])
  }

  /** The queue holds segments of one stream that can all be read, and their bytes. */
  ghost predicate Carries(items: Segments, contents: seq<byte>, cursor: nat, stream: seq<byte>, start: int) {
    && start <= cursor <= start + |stream|
    && (forall i <- items :: OfStream(items[i], stream, start) && Stored(items[i], contents, cursor, stream, start))
    && PairsCompatible(items)
  }

  lemma StoredSurvives(g: Segment, contents: seq<byte>, cursor: nat, stream: seq<byte>, start: int, h: Segment,
                       data: seq<byte>)
    requires OfStream(g, stream, start) && Stored(g, contents, cursor, stream, start)
    requires OfStream(h, stream, start) && cursor <= h.seqnbr && |data| == h.length && Apart(g, h)
    ensures Stored(g, Written(contents, h.seqnbr - cursor, data), cursor, stream, start)
  {
    if g.length > 0 && h.length > 0 {
      var after := Written(contents, h.seqnbr - cursor, data);
      var o := g.seqnbr - cursor;
      assert after[o..o + g.length] == contents[o..o + g.length];
    }
  }

  lemma NewStored(g: Segment, contents: seq<byte>, cursor: nat, stream: seq<byte>, start: int, data: seq<byte>)
    requires OfStream(g, stream, start) && cursor <= g.seqnbr
    requires data == stream[g.seqnbr - start..g.seqnbr - start + g.length]
    ensures Stored(g, Written(contents, g.seqnbr - cursor, data), cursor, stream, start)
  {
    if g.length > 0 {
      var o := g.seqnbr - cursor;
      assert Written(contents, o, data)[o..o + g.length] == data;
    }
  }

  /** Taking in one more segment of the stream keeps all of this exactly if it is compatible with those queued. */
  lemma InsertCarries(items: Segments, contents: seq<byte>, cursor: nat, stream: seq<byte>, start: int, idx: nat,
                      g: Segment)
    requires Carries(items, contents, cursor, stream, start) && idx !in items
    requires OfStream(g, stream, start) && cursor <= g.seqnbr
    ensures var data := stream[g.seqnbr - start..g.End() - start];
      Carries(items[idx := g], Written(contents, g.seqnbr - cursor, data), cursor, stream, start)
      <==> forall i <- items :: Compatible(items[i], i, g, idx)
  {
    hide Stored, Written, PairsCompatible, Compatible;
    var data := stream[g.seqnbr - start..g.End() - start];
    CarriesOrderly(items, contents, cursor, stream, start);
    InsertOrderly(Table(items, cursor), idx, g, start + |stream|);
    if forall i <- items :: Compatible(items[i], i, g, idx) {
      forall i | i in items
        ensures Stored(items[i], Written(contents, g.seqnbr - cursor, data), cursor, stream, start)
      {
        CompatibleIsApart(items[i], i, g, idx);
        StoredSurvives(items[i], contents, cursor, stream, start, g, data);
      }
      NewStored(g, contents, cursor, stream, start, data);
    } else if Carries(items[idx := g], Written(contents, g.seqnbr - cursor, data), cursor, stream, start) {
      CarriesOrderly(items[idx := g], Written(contents, g.seqnbr - cursor, data), cursor, stream, start);
    }
  }

  lemma CompatibleIsApart(a: Segment, i: nat, b: Segment, j: nat)
    requires Compatible(a, i, b, j) && i != j
    ensures Apart(a, b)
  {
  }

  lemma CarriesOrderly(items: Segments, contents: seq<byte>, cursor: nat, stream: seq<byte>, start: int)
    requires Carries(items, contents, cursor, stream, start)
    ensures Orderly(Table(items, cursor), start + |stream|)
  {
    hide PairsCompatible;
  }

  lemma StoredAdvances(g: Segment, contents: seq<byte>, cursor: nat, stream: seq<byte>, start: int, n: nat)
    requires OfStream(g, stream, start) && Stored(g, contents, cursor, stream, start) && cursor + n <= g.seqnbr
    requires n <= |contents|
    ensures Stored(g, contents[n..], cursor + n, stream, start)
  {
    if g.length > 0 {
      var o := g.seqnbr - cursor;
      assert contents[n..][o - n..o - n + g.length] == contents[o..o + g.length];
    }
  }

  /** Reading the front segment, at the cursor, yields its bytes of the stream and keeps the rest. */
  lemma ReadCarries(items: Segments, contents: seq<byte>, cursor: nat, stream: seq<byte>, start: int, idx: nat)
    requires Carries(items, contents, cursor, stream, start) && IsFront(items, idx) && items[idx].seqnbr == cursor
    ensures var n := items[idx].length;
      && n <= |contents| && cursor + n <= start + |stream|
      && contents[..n] == stream[cursor - start..cursor - start + n]
      && Carries(items - {idx}, contents[n..], cursor + n, stream, start)
  {
    hide Stored, PairsCompatible, IsFront;
    FrontIsLive(items, idx);
    var n := items[idx].length;
    CarriesOrderly(items, contents, cursor, stream, start);
    ReadOrderly(Table(items, cursor), idx, start + |stream|);
    FrontBytes(items[idx], contents, cursor, stream, start);
    forall i | i in items - {idx}
      ensures Stored(items[i], contents[n..], cursor + n, stream, start)
    {
      assert (items - {idx})[i] == items[i];
      StoredAdvances(items[i], contents, cursor, stream, start, n);
    }
  }

  lemma FrontBytes(g: Segment, contents: seq<byte>, cursor: nat, stream: seq<byte>, start: int)
    requires OfStream(g, stream, start) && Stored(g, contents, cursor, stream, start) && g.seqnbr == cursor
    ensures g.length <= |contents| && contents[..g.length] == stream[cursor - start..cursor - start + g.length]
  {
  }

  lemma CarriedAreNumbered(items: Segments, contents: seq<byte>, cursor: nat, stream: seq<byte>, start: int)
    requires Carries(items, contents, cursor, stream, start) && |items| > 0
    ensures HasNumbered(items)
  {
    var i :| i in items.Keys;
    assert i in items;
  }

  /** Stream position `p` has been read or is in the queue. */
  ghost predicate Arrived(items: Segments, cursor: nat, start: int, p: nat) {
    start + p < cursor || exists i :: i in items && items[i].seqnbr <= start + p < items[i].seqnbr + items[i].length
  }

  /** With nothing to read at the cursor, the cursor is at a gap: everything before the first gap has been read. */
  lemma StopsOnlyAtGap(items: Segments, contents: seq<byte>, cursor: nat, stream: seq<byte>, start: int)
    requires Carries(items, contents, cursor, stream, start) && !exists i :: i in items && items[i].seqnbr == cursor
    ensures !Arrived(items, cursor, start, cursor - start)
  {
  }

  lemma StalledInsert(t: Table, slot: nat, g: Segment)
    requires slot !in t.items
    ensures Stalled(t) ==> Stalled(Table(t.items[slot := g], t.cursor))
  {
    if Stalled(t) {
      var i :| i in t.items && t.items[i].seqnbr < t.cursor;
      assert t.items[slot := g][i] == t.items[i];
    }
  }

  lemma OutsideTheWindow(cursor: nat, seqnbr: nat)
    requires cursor < UINT32 && seqnbr < UINT32 && !PassesWindow(cursor, seqnbr)
    ensures Distance(cursor, seqnbr) >= WINDOW
  {
    assert Distance(cursor, seqnbr) == if seqnbr >= cursor then seqnbr - cursor else seqnbr + UINT32 - cursor;
  }

  /** The scan for the lowest number; one of 2^32 - 1 is never found. */
  method FindFront(segments: PoolModel<Segment>) returns (idx: nat)
    requires segments.Valid() && HasNumbered(segments.items)
    ensures IsFront(segments.items, idx)
  {
    hide PoolModel.Valid;
    WithinWatermark(segments);
    var lowest := MAX_SEQNBR;
    idx := segments.watermark;
    for i := 0 to segments.watermark
      invariant lowest <= MAX_SEQNBR
      invariant lowest == MAX_SEQNBR ==> forall j <- segments.items :: j < i ==> segments.items[j].seqnbr >= MAX_SEQNBR
      invariant lowest < MAX_SEQNBR ==> idx in segments.items && segments.items[idx].seqnbr == lowest && idx < i
      invariant lowest < MAX_SEQNBR ==> forall j <- segments.items :: j < i ==>
        lowest < segments.items[j].seqnbr || (lowest == segments.items[j].seqnbr && idx <= j)
    {
      if i in segments.items && segments.items[i].seqnbr < lowest {
        lowest, idx := segments.items[i].seqnbr, i;
      }
    }
  }

  class ReceiveQueue {
    var segments: PoolModel<Segment>
    const buffer: RingBuffer
    var cursor: nat

    ghost predicate Valid()
      reads this, buffer, buffer.queue
    {
      && segments.Valid() && segments.capacity == MAX_SEGMENTS
      && buffer.Valid() && buffer.Capacity() == WINDOW && cursor < UINT32
    }

    ghost function Contents(): (s: seq<byte>)
      requires Valid()
      reads this, buffer, buffer.queue, buffer.queue.items
    {
      buffer.Contents()
    }

    ghost function View(): Table
      reads this
    {
      Table(segments.items, cursor)
    }

    constructor ()
      ensures Valid() && segments.items == map[] && segments.Slot() == 0 && Contents() == [] && cursor == 0
      ensures fresh(buffer) && fresh(buffer.queue) && fresh(buffer.queue.items)
    {
      buffer := new RingBuffer(WINDOW);
      segments, cursor := Empty(MAX_SEGMENTS), 0;
    }

    method Reset(seqnbr: nat)
      requires Valid() && seqnbr < UINT32
      modifies this, buffer.queue
      ensures Valid() && segments.items == map[] && Contents() == [] && cursor == seqnbr
    {
      cursor := seqnbr;
      buffer.Clear();
      segments := Empty(MAX_SEGMENTS);
    }

    /**
     Takes the segment in if it can. An empty one is treated like the others but for
     a distance of 2^32 - 1, which the buffer takes for appending. What has stalled
     the table is still there afterwards.
     */
    method Insert(segment: Segment, data: seq<byte>) returns (ok: bool)
      requires Valid() && segment.seqnbr < UINT32
      requires PassesWindow(cursor, segment.seqnbr) ==> Distance(cursor, segment.seqnbr) + |data| < UINT32
      modifies this`segments, buffer.queue, buffer.queue.items
      ensures Valid()
      ensures data != [] ==> (ok <==> !old(segments).Full() && Distance(cursor, segment.seqnbr) + |data| <= WINDOW)
      ensures data == [] ==> (ok <==> !old(segments).Full() && PassesWindow(cursor, segment.seqnbr)
                                      && (Distance(cursor, segment.seqnbr) <= WINDOW
                                          || Distance(cursor, segment.seqnbr) == MAX_SEQNBR))
      ensures ok ==> !old(segments).Full() && segments == old(segments).EmplaceAnywhere(segment.(length := |data|))
      ensures !ok ==> segments == old(segments)
      ensures Contents() ==
        if ok then Written(old(Contents()), Distance(cursor, segment.seqnbr), data) else old(Contents())
      ensures old(Stalled(View())) ==> Stalled(View())
    {
      hide Written, PoolModel.Valid, PoolModel.EmplaceAnywhere, PoolModel.Slot, Distance, Stalled;
      if segments.Full() {
        return false;
      }
      var d := Distance(cursor, segment.seqnbr);
      if !PassesWindow(cursor, segment.seqnbr) {
        OutsideTheWindow(cursor, segment.seqnbr);
        return false;
      }
      if data != [] {
        AcceptsExactlyTheWindow(cursor, segment.seqnbr, |data|, |Contents()|);
      } else {
        WrittenNone(Contents(), d, |Contents()|);
      }
      ok := buffer.Write(data, AsInt(d));
      if ok {
        ghost var t, slot := View(), segments.Slot();
        segments := segments.EmplaceAnywhere(segment.(length := |data|));
        StalledInsert(t, slot, segment.(length := |data|));
      }
    }

    method HasReadable() returns (readable: bool)
      requires Valid() && (segments.items != map[] ==> HasNumbered(segments.items))
      ensures readable <==> exists idx :: IsFront(segments.items, idx) && segments.items[idx].seqnbr == cursor
      ensures Stalled(View()) ==> !readable
    {
      hide PoolModel.Valid, HasNumbered;
      if |segments.items| == 0 {
        assert segments.items == map[];
        return false;
      }
      var idx := FindFront(segments);
      OnlyFront(segments.items, idx);
      readable := segments.items[idx].seqnbr == cursor;
    }

    /** Reads the front segment, which must be at the cursor and fit `maxLength`. */
    method ReadOneSegment(maxLength: nat) returns (segment: Segment, data: seq<byte>, ghost idx: nat)
      requires Valid() && HasNumbered(segments.items)
      requires forall i :: IsFront(segments.items, i) ==> segments.items[i].seqnbr == cursor
      requires forall i :: IsFront(segments.items, i) ==>
        segments.items[i].length <= maxLength && segments.items[i].length <= |Contents()|
      modifies this`segments, this`cursor, buffer.queue
      ensures Valid() && IsFront(old(segments.items), idx) && segment == old(segments.items)[idx]
      ensures data == old(Contents())[..segment.length] && Contents() == old(Contents())[segment.length..]
      ensures segments == old(segments).Erase(idx) && cursor == (old(cursor) + segment.length) % UINT32
    {
      hide PoolModel.Valid, PoolModel.Erase, HasNumbered, IsFront;
      var front := FindFront(segments);
      FrontIsLive(segments.items, front);
      segment := segments.items[front];
      data := buffer.ReadFront(if maxLength < segment.length then maxLength else segment.length);
      segments := segments.Erase(front);
      cursor := (cursor + segment.length) % UINT32;
      idx := front;
    }

    /**
     Insert, for any segment of the stream: the bytes from number `n` on, within 2^31 of
     the cursor. The queue goes on to carry the stream exactly if the segment begins ahead
     of the cursor, before the border of the numbers, and is compatible with every one
     queued. One from beyond the border stalls the table.
     */
    method Take(segment: Segment, data: seq<byte>, ghost stream: seq<byte>, ghost start: int, ghost n: int)
      returns (ok: bool)
      requires Valid() && Carries(segments.items, Contents(), cursor, stream, start)
      requires cursor - INT_LIMIT <= n < cursor + INT_LIMIT && segment.seqnbr == n % UINT32
      requires start <= n && n + |data| <= start + |stream| && data == stream[n - start..n - start + |data|]
      requires segment.length == |data|
      requires PassesWindow(cursor, segment.seqnbr) ==> Distance(cursor, segment.seqnbr) + |data| < UINT32
      modifies this`segments, buffer.queue, buffer.queue.items
      ensures Valid()
      ensures data != [] ==> (ok <==> !old(segments).Full() && cursor <= n && n + |data| <= cursor + WINDOW)
      ensures segments.items == if ok then old(segments.items)[old(segments).Slot() := segment] else old(segments.items)
      ensures Carries(segments.items, Contents(), cursor, stream, start) <==>
        (ok ==> cursor <= n < MAX_SEQNBR && Suits(old(View()), old(segments).Slot(), segment, start + |stream|))
      ensures ok && n >= UINT32 ==> Stalled(View())
    {
      hide PoolModel.Valid, PoolModel.EmplaceAnywhere, PoolModel.Slot, Carries, Compatible, Written, Distance;
      NumberAt(cursor, n);
      ok := Insert(segment, data);
      if ok {
        if cursor <= n < MAX_SEQNBR {
          InsertCarries(old(segments.items), old(Contents()), cursor, stream, start, old(segments).Slot(), segment);
        } else {
          NotCarried(segments.items, Contents(), cursor, stream, start, old(segments).Slot());
        }
      }
    }

    /** One turn of the reading loop of a connection. */
    method ReadNext(maxLength: nat, ghost stream: seq<byte>, ghost start: int)
      returns (data: seq<byte>, ghost idx: nat, ghost start': int)
      requires Valid() && Carries(segments.items, Contents(), cursor, stream, start)
      requires exists i :: i in segments.items && segments.items[i].seqnbr == cursor
      requires forall i <- segments.items :: segments.items[i].length <= maxLength
      modifies this`segments, this`cursor, buffer.queue
      ensures Valid() && Carries(segments.items, Contents(), cursor, stream, start')
      ensures IsFront(old(segments.items), idx) && old(segments.items)[idx].seqnbr == old(cursor)
      ensures segments.items == old(segments.items) - {idx}
      ensures cursor - start' == old(cursor) - start + old(segments.items)[idx].length
      ensures start' == start || (start' == start - UINT32 && segments.items == map[])
      ensures data == stream[old(cursor) - start..cursor - start'] && |segments.items| < |old(segments.items)|
      ensures forall p :: Arrived(segments.items, cursor, start', p) <==>
        Arrived(old(segments.items), old(cursor), start, p)
    {
      hide PoolModel.Valid, PoolModel.Erase, HasNumbered, Carries, IsFront, Arrived;
      TheFront(segments.items, Contents(), cursor, stream, start);
      forall i | IsFront(segments.items, i)
        ensures i in segments.items
      {
        FrontIsLive(segments.items, i);
      }
      var segment;
      segment, data, idx := ReadOneSegment(maxLength);
      ReadCarries(old(segments.items), old(Contents()), old(cursor), stream, start, idx);
      FrontBounds(old(segments.items), old(Contents()), old(cursor), stream, start, idx);
      start' := start;
      if old(cursor) + segment.length >= UINT32 {
        CrossBorder(segments.items, Contents(), old(cursor) + segment.length, stream, start);
        start' := start - UINT32;
      }
      FrontIsLive(old(segments.items), idx);
      MinusCount(old(segments.items), idx);
      ReadArrived(old(segments.items), old(cursor), start, idx);
      ArrivedShifts(segments.items, cursor, start', old(cursor) + segment.length, start);
    }

    /** Reads as long as something is readable. */
    method Drain(maxLength: nat, ghost stream: seq<byte>, ghost start: int)
      returns (data: seq<byte>, ghost start': int)
      requires Valid() && Carries(segments.items, Contents(), cursor, stream, start)
      requires forall i <- segments.items :: segments.items[i].length <= maxLength
      modifies this`segments, this`cursor, buffer.queue
      ensures Valid() && Carries(segments.items, Contents(), cursor, stream, start')
      ensures start' == start || start' == start - UINT32
      ensures old(cursor) - start <= cursor - start' && data == stream[old(cursor) - start..cursor - start']
      ensures forall p :: Arrived(segments.items, cursor, start', p) <==>
        Arrived(old(segments.items), old(cursor), start, p)
      ensures !Arrived(segments.items, cursor, start', cursor - start')
    {
      hide PoolModel.Valid, HasNumbered, Carries, Arrived, IsFront;
      StreamBounds(segments.items, Contents(), cursor, stream, start);
      data, start' := [], start;
      var readable := Readable(stream, start');
      while readable
        invariant Valid() && Carries(segments.items, Contents(), cursor, stream, start')
        invariant old(cursor) - start <= cursor - start' <= |stream|
        invariant start' == start || (start' == start - UINT32 && !readable)
        invariant forall i <- segments.items :: segments.items[i].length <= maxLength
        invariant data == stream[old(cursor) - start..cursor - start']
        invariant forall p :: Arrived(segments.items, cursor, start', p) <==>
          Arrived(old(segments.items), old(cursor), start, p)
        invariant readable <==> exists i :: i in segments.items && segments.items[i].seqnbr == cursor
        decreases |segments.items|
      {
        ghost var c, st := cursor, start';
        var bytes;
        ghost var idx;
        bytes, idx, start' := ReadNext(maxLength, stream, st);
        StreamBounds(segments.items, Contents(), cursor, stream, start');
        assert stream[old(cursor) - start..c - st] + stream[c - st..cursor - start'] ==
          stream[old(cursor) - start..cursor - start'];
        data := data + bytes;
        readable := Readable(stream, start');
      }
      StopsOnlyAtGap(segments.items, Contents(), cursor, stream, start');
    }

    method Readable(ghost stream: seq<byte>, ghost start: int) returns (readable: bool)
      requires Valid() && Carries(segments.items, Contents(), cursor, stream, start)
      ensures readable <==> exists i :: i in segments.items && segments.items[i].seqnbr == cursor
    {
      hide PoolModel.Valid, HasNumbered, Carries;
      if segments.items != map[] {
        TheFront(segments.items, Contents(), cursor, stream, start);
      }
      readable := HasReadable();
    }
  }

  lemma StreamBounds(items: Segments, contents: seq<byte>, cursor: nat, stream: seq<byte>, start: int)
    requires Carries(items, contents, cursor, stream, start)
    ensures start <= cursor <= start + |stream|
  {
  }

  lemma FrontBounds(items: Segments, contents: seq<byte>, cursor: nat, stream: seq<byte>, start: int, idx: nat)
    requires Carries(items, contents, cursor, stream, start) && idx in items && cursor < UINT32
    ensures items[idx].length <= |contents|
  {
  }

  /** Where the number `n` is, seen from the cursor. */
  lemma NumberAt(cursor: nat, n: int)
    requires cursor < UINT32 && cursor - INT_LIMIT <= n < cursor + INT_LIMIT
    ensures var seqnbr := n % UINT32;
      && Distance(cursor, seqnbr) == (if n >= cursor then n - cursor else n - cursor + UINT32)
      && (n >= UINT32 ==> seqnbr < cursor)
      && (0 <= n < UINT32 ==> seqnbr == n)
  {
    assert n % UINT32 == if n < 0 then n + UINT32 else if n < UINT32 then n else n - UINT32;
  }

  /** Once the cursor has passed the border the table is empty, and the numbers begin anew. */
  lemma CrossBorder(items: Segments, contents: seq<byte>, cursor: nat, stream: seq<byte>, start: int)
    requires Carries(items, contents, cursor, stream, start) && UINT32 <= cursor
    ensures items == map[] && Carries(items, contents, cursor - UINT32, stream, start - UINT32)
  {
  }

  lemma ArrivedShifts(items: Segments, cursor: nat, start: int, c: nat, st: int)
    requires cursor - start == c - st && (start == st || items == map[])
    ensures forall p :: Arrived(items, cursor, start, p) <==> Arrived(items, c, st, p)
  {
  }

  /** What is in the queue of one stream can be found, and read if it is at the cursor. */
  lemma TheFront(items: Segments, contents: seq<byte>, cursor: nat, stream: seq<byte>, start: int)
    requires Carries(items, contents, cursor, stream, start) && items != map[]
    ensures HasNumbered(items)
    ensures (exists i :: i in items && items[i].seqnbr == cursor)
      <==> exists i :: IsFront(items, i) && items[i].seqnbr == cursor
    ensures (exists i :: i in items && items[i].seqnbr == cursor) ==>
      forall i :: IsFront(items, i) ==> items[i].seqnbr == cursor
    ensures forall i :: IsFront(items, i) ==> items[i].length <= |contents|
  {
    assert |items| > 0 by {
      var i :| i in items;
      assert i in items.Keys;
    }
    CarriedAreNumbered(items, contents, cursor, stream, start);
    var front := FrontExists(items);
    OnlyFront(items, front);
    hide HasNumbered, PairsCompatible;
  }

  lemma ReadArrived(items: Segments, cursor: nat, start: int, idx: nat)
    requires idx in items && items[idx].seqnbr == cursor
    ensures forall p :: Arrived(items - {idx}, cursor + items[idx].length, start, p) <==>
      Arrived(items, cursor, start, p)
  {
    var n := items[idx].length;
    forall p
      ensures Arrived(items - {idx}, cursor + n, start, p) <==> Arrived(items, cursor, start, p)
    {
      if Arrived(items, cursor, start, p) && start + p >= cursor + n {
        var i :| i in items && items[i].seqnbr <= start + p < items[i].seqnbr + items[i].length;
        assert i in items - {idx};
      }
    }
  }

  lemma NotCarried(items: Segments, contents: seq<byte>, cursor: nat, stream: seq<byte>, start: int, idx: nat)
    requires idx in items && (items[idx].seqnbr < cursor || items[idx].seqnbr >= MAX_SEQNBR)
    ensures !Carries(items, contents, cursor, stream, start)
  {
  }

  lemma WrittenNone(s: seq<byte>, o: nat, size: nat)
    ensures Written(s, o, []) == s && Written(s, size, []) == s
  {
  }

  lemma WithinWatermark(p: PoolModel<Segment>)
    requires p.Valid()
    ensures forall i <- p.items :: i < p.watermark
  {
  }

  /** A new queue that has taken in the same segment of one byte twice. */
  method TakenTwice(a: byte) returns (q: ReceiveQueue)
    ensures fresh(q) && fresh(q.buffer) && fresh(q.buffer.queue) && fresh(q.buffer.queue.items)
    ensures q.Valid() && q.cursor == 0 && |q.segments.items| == 2 && |q.Contents()| == 1
    ensures forall i <- q.segments.items :: q.segments.items[i] == Segment(0, 0, 1)
  {
    hide PoolModel.Valid, PoolModel.EmplaceAnywhere, PoolModel.Slot, Written, Stalled, PassesWindow, RingBuffer.Valid;
    hide RingBuffer.Contents;
    q := new ReceiveQueue();
    FirstInWindow();
    var first := q.Insert(Segment(0, 0, 1), [a]);
    var second := q.Insert(Segment(0, 0, 1), [a]);
  }

  lemma FirstInWindow()
    ensures PassesWindow(0, 0) && Distance(0, 0) == 0 && PassesWindow(1, 1) && Distance(1, 1) == 0
  {
  }

  lemma OneLeft(items: Segments, idx: nat)
    requires idx in items && |items| == 2
    ensures |items - {idx}| == 1 && exists i :: i in items - {idx}
  {
    MinusCount(items, idx);
    assert items - {idx} != map[];
    var i :| i in items - {idx};
  }

  /** The same queue after one read: the second copy is left behind. */
  method ReadOnce(a: byte) returns (q: ReceiveQueue)
    ensures fresh(q) && fresh(q.buffer) && fresh(q.buffer.queue) && fresh(q.buffer.queue.items)
    ensures q.Valid() && q.cursor == 1 && |q.segments.items| == 1 && Stalled(q.View())
  {
    hide PoolModel.Valid, PoolModel.Erase, RingBuffer.Valid, RingBuffer.Contents, IsFront;
    q := TakenTwice(a);
    ghost var items := q.segments.items;
    SameFront(items);
    var segment, data, idx := q.ReadOneSegment(1);
    FrontIsLive(items, idx);
    OneLeft(items, idx);
  }

  lemma SameFront(items: Segments)
    requires |items| == 2 && forall i <- items :: items[i] == Segment(0, 0, 1)
    ensures HasNumbered(items) && forall i :: IsFront(items, i) ==> i in items
  {
    assert items != map[];
    var i :| i in items;
  }

  /**
   A run that stalls: a segment of one byte comes twice and is taken in both times; it is
   read once; then the byte at the cursor comes and is taken in, and nothing is readable.
   */
  method DuplicateStalls(a: byte, b: byte) returns (q: ReceiveQueue, readable: bool)
    ensures q.Valid() && q.cursor == 1 && !readable && Stalled(q.View())
    ensures exists i :: i in q.segments.items && q.segments.items[i].seqnbr == q.cursor
    ensures readable <==> exists i :: IsFront(q.segments.items, i) && q.segments.items[i].seqnbr == q.cursor
  {
    hide PoolModel.Valid, PoolModel.EmplaceAnywhere, PoolModel.Slot, Written, PassesWindow, RingBuffer.Valid;
    hide RingBuffer.Contents, Stalled;
    q := ReadOnce(a);
    FirstInWindow();
    ghost var slot := q.segments.Slot();
    var third := q.Insert(Segment(0, 1, 1), [b]);
    assert q.segments.items[slot].seqnbr == q.cursor;
    StalledNumbered(q.View());
    readable := q.HasReadable();
  }

  lemma StalledNumbered(t: Table)
    requires Stalled(t) && t.cursor < UINT32
    ensures HasNumbered(t.items)
  {
  }
}
