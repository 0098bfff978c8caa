/**
 The send queue of libraries/net/tcp/send_queue.cc: outgoing segments in order,
 with their bytes, from the first one the remote has not acknowledged on.

 The queue is stated against what it is for: `stream` is every byte written since
 the last reset, `log` every segment. `popped` of those have been acknowledged.
 */
module SendQueues {
  import opened Bytes
  import opened Queues
  import opened RingBuffers

  datatype SendSegment = SendSegment(flags: nat, seqnbr: nat, dataLength: nat, sendLength: nat)

  const WINDOW: nat := 0xFFFF
  const MAX_SEGMENTS: nat := 100

  /** The segments follow each other without gap or overlap from `from` to `to`. */
  ghost predicate Tiles(segs: seq<SendSegment>, from: nat, to: nat) {
    if segs == [] then from == to else segs[0].seqnbr == from && Tiles(segs[1..], from + segs[0].dataLength, to)
  }

  /** The number after the first `k` segments. */
  ghost function EndOf(segs: seq<SendSegment>, from: nat, k: nat): nat
    requires k <= |segs|
  {
    if k == 0 then from else EndOf(segs[1..], from + segs[0].dataLength, k - 1)
  }

  /** How many segments acknowledging up to `n` takes off the front. */
  ghost function Acked(segs: seq<SendSegment>, from: nat, n: nat): (k: nat)
    ensures k <= |segs|
  {
    if segs == [] || n <= from || segs[0].seqnbr + segs[0].dataLength > n then 0
    else 1 + Acked(segs[1..], from + segs[0].dataLength, n)
  }

  lemma {:induction false} TilesPush(segs: seq<SendSegment>, from: nat, to: nat, s: SendSegment)
    requires Tiles(segs, from, to) && s.seqnbr == to
    ensures Tiles(segs + [s], from, to + s.dataLength)
  {
    if segs == [] {
      assert (segs + [s])[1..] == [];
    } else {
      assert (segs + [s])[1..] == segs[1..] + [s];
      TilesPush(segs[1..], from + segs[0].dataLength, to, s);
    }
  }

  /** Without the last segment's bytes accounted for, the tiling is lost. */
  lemma {:induction false} TilesOnlyOnce(segs: seq<SendSegment>, from: nat, to: nat, to': nat)
    requires Tiles(segs, from, to)
    ensures Tiles(segs, from, to') <==> to' == to
  {
    if segs != [] {
      TilesOnlyOnce(segs[1..], from + segs[0].dataLength, to, to');
    }
  }

  lemma {:induction false} TileAt(segs: seq<SendSegment>, from: nat, to: nat, i: nat)
    requires Tiles(segs, from, to) && i < |segs|
    ensures from <= segs[i].seqnbr && segs[i].seqnbr + segs[i].dataLength <= to
  {
    TileEnd(segs[1..], from + segs[0].dataLength, to);
    if i > 0 {
      TileAt(segs[1..], from + segs[0].dataLength, to, i - 1);
    }
  }

  lemma {:induction false} TileEnd(segs: seq<SendSegment>, from: nat, to: nat)
    requires Tiles(segs, from, to)
    ensures from <= to
  {
    if segs != [] {
      TileEnd(segs[1..], from + segs[0].dataLength, to);
    }
  }

  /** Acknowledging moves to the largest segment boundary that is not above the number acknowledged. */
  lemma {:induction false} AckIsLargestBoundary(segs: seq<SendSegment>, from: nat, to: nat, n: nat, j: nat)
    requires Tiles(segs, from, to) && from <= n && j <= |segs|
    ensures var end := EndOf(segs, from, Acked(segs, from, n));
      from <= end <= n && (EndOf(segs, from, j) <= n ==> EndOf(segs, from, j) <= end)
    decreases |segs|
  {
    EndBound(segs, from, j);
    if segs != [] && n > from && segs[0].seqnbr + segs[0].dataLength <= n {
      AckIsLargestBoundary(segs[1..], from + segs[0].dataLength, to, n, if j == 0 then 0 else j - 1);
    } else if j > 0 {
      EndBound(segs[1..], from + segs[0].dataLength, j - 1);
    }
  }

  lemma {:induction false} EndBound(segs: seq<SendSegment>, from: nat, k: nat)
    requires k <= |segs|
    ensures from <= EndOf(segs, from, k)
  {
    if k > 0 {
      EndBound(segs[1..], from + segs[0].dataLength, k - 1);
    }
  }

  lemma {:induction false} EndOfAll(segs: seq<SendSegment>, from: nat, to: nat)
    requires Tiles(segs, from, to)
    ensures EndOf(segs, from, |segs|) == to
  {
    if segs != [] {
      EndOfAll(segs[1..], from + segs[0].dataLength, to);
    }
  }

  /** Acknowledging everything leaves nothing unacknowledged. */
  lemma AckedAll(segs: seq<SendSegment>, from: nat, to: nat)
    requires Tiles(segs, from, to)
    ensures EndOf(segs, from, Acked(segs, from, to)) == to
  {
    TileEnd(segs, from, to);
    EndOfAll(segs, from, to);
    AckIsLargestBoundary(segs, from, to, to, |segs|);
  }

  /** A segment is never longer on the wire than in the sequence. */
  ghost predicate SendsFit(segs: seq<SendSegment>) {
    forall i :: 0 <= i < |segs| ==> segs[i].sendLength <= segs[i].dataLength
  }

  /**
   What keeps the queue together: the segments tile the unacknowledged numbers, the
   buffer holds exactly their bytes, and the next segment to read is one of them or the next to come.
   */
  ghost predicate Consistent(segs: seq<SendSegment>, contents: seq<byte>, ackPos: nat, writePos: nat, readPos: nat,
                             log: seq<SendSegment>, popped: nat, stream: seq<byte>, base: nat)
  {
    && Tiles(segs, ackPos, writePos) && SendsFit(segs) && readPos <= |segs|
    && base <= ackPos && writePos == base + |stream| < UINT32 && ackPos - base <= |stream|
    && contents == stream[ackPos - base..]
    && popped <= |log| && segs == log[popped..]
  }

  lemma WriteConsistent(segs: seq<SendSegment>, contents: seq<byte>, ackPos: nat, writePos: nat, readPos: nat,
                        log: seq<SendSegment>, popped: nat, stream: seq<byte>, base: nat, s: SendSegment,
                          data: seq<byte>)
    requires Consistent(segs, contents, ackPos, writePos, readPos, log, popped, stream, base)
    requires s.seqnbr == writePos && s.dataLength == |data| && s.sendLength <= |data| && writePos + |data| < UINT32
    ensures Consistent(segs + [s], contents + data, ackPos, writePos + |data|, readPos, log + [s], popped,
      stream + data, base)
  {
    TilesPush(segs, ackPos, writePos, s);
  }

  /** What read_one_segment finds in the buffer at the segment's distance. */
  lemma ReadConsistent(segs: seq<SendSegment>, contents: seq<byte>, ackPos: nat, writePos: nat, readPos: nat,
                       log: seq<SendSegment>, popped: nat, stream: seq<byte>, base: nat)
    requires Consistent(segs, contents, ackPos, writePos, readPos, log, popped, stream, base) && readPos < |segs|
    ensures popped + readPos < |log| && segs[readPos] == log[popped + readPos]
    ensures var s := segs[readPos];
      && s.sendLength <= s.dataLength
      && base <= ackPos <= s.seqnbr && s.seqnbr + s.dataLength <= writePos == base + |stream|
      && |contents| == writePos - ackPos
      && contents[s.seqnbr - ackPos..s.seqnbr - ackPos + s.dataLength] ==
           stream[s.seqnbr - base..s.seqnbr - base + s.dataLength]
  {
    TileAt(segs, ackPos, writePos, readPos);
  }

  lemma PopConsistent(segs: seq<SendSegment>, contents: seq<byte>, ackPos: nat, writePos: nat, readPos: nat,
                      log: seq<SendSegment>, popped: nat, stream: seq<byte>, base: nat)
    requires Consistent(segs, contents, ackPos, writePos, readPos, log, popped, stream, base) && segs != []
    ensures segs[0].seqnbr == ackPos && segs[0].dataLength <= |contents|
    ensures var n := segs[0].dataLength;
      Consistent(segs[1..], contents[n..], ackPos + n, writePos, if readPos > 0 then readPos - 1
        else 0, log, popped + 1, stream, base)
  {
    TileAt(segs, ackPos, writePos, 0);
  }

  lemma NothingLeft(segs: seq<SendSegment>, contents: seq<byte>, ackPos: nat, writePos: nat, readPos: nat,
                    log: seq<SendSegment>, popped: nat, stream: seq<byte>, base: nat, n: nat)
    requires Consistent(segs, contents, ackPos, writePos, readPos, log, popped, stream, base) && n <= writePos
    ensures n > ackPos ==> segs != []
  {
  }

  /** One turn of the acknowledging loop. */
  lemma AckStep(segs: seq<SendSegment>, from: nat, n: nat)
    requires segs != [] && n > from && segs[0].seqnbr + segs[0].dataLength <= n
    ensures var rest, next := segs[1..], from + segs[0].dataLength;
      && Acked(segs, from, n) == 1 + Acked(rest, next, n)
      && EndOf(segs, from, Acked(segs, from, n)) == EndOf(rest, next, Acked(rest, next, n))
  {
  }

  lemma AckStop(segs: seq<SendSegment>, from: nat, n: nat)
    requires segs == [] || n <= from || segs[0].seqnbr + segs[0].dataLength > n
    ensures Acked(segs, from, n) == 0 && EndOf(segs, from, 0) == from
  {
  }

  /** The window test; the end of the window is a 32-bit sum. */
  predicate InWindow(s: SendSegment, ackPos: nat, window: nat) {
    s.seqnbr + s.sendLength <= (ackPos + window) % UINT32
  }

  /** The default window lets every queued segment pass, or none if its end is past the 32-bit border. */
  lemma DefaultWindow(segs: seq<SendSegment>, contents: seq<byte>, ackPos: nat, writePos: nat, readPos: nat,
                      log: seq<SendSegment>, popped: nat, stream: seq<byte>, base: nat, i: nat)
    requires Consistent(segs, contents, ackPos, writePos, readPos, log, popped, stream, base) && i < |segs|
    requires |contents| <= WINDOW
    ensures InWindow(segs[i], ackPos, WINDOW) <==> ackPos + WINDOW < UINT32
  {
    TileAt(segs, ackPos, writePos, i);
  }

  class SendQueue {
    var ackPos: nat
    var writePos: nat
    var readPos: nat
    var window: nat
    const buffer: RingBuffer
    const segments: Queue<SendSegment>
    ghost var log: seq<SendSegment>
    ghost var popped: nat
    ghost var stream: seq<byte>
    ghost var base: nat

    ghost predicate Shape()
      reads this, buffer, buffer.queue, segments
    {
      buffer.Valid() && buffer.Capacity() == WINDOW && segments.Valid() && segments.items.Length == MAX_SEGMENTS
    }

    ghost function Contents(): seq<byte>
      requires Shape()
      reads this, buffer, buffer.queue, buffer.queue.items, segments
    {
      buffer.Contents()
    }

    ghost function Segs(): seq<SendSegment>
      requires Shape()
      reads this, buffer, buffer.queue, segments, segments.items
    {
      segments.Contents()
    }

    ghost predicate Valid()
      reads this, buffer, buffer.queue, buffer.queue.items, segments, segments.items
    {
      Shape() && Consistent(Segs(), Contents(), ackPos, writePos, readPos, log, popped, stream, base)
    }

    /** The next segment to be read, counted over the whole log. */
    ghost function Next(): nat
      reads this
    {
      popped + readPos
    }

    constructor ()
      ensures Valid() && log == [] && stream == [] && base == 0 && window == WINDOW
      ensures fresh(buffer) && fresh(buffer.queue) && fresh(buffer.queue.items) && fresh(segments)
      ensures fresh(segments.items)
    {
      buffer := new RingBuffer(WINDOW);
      segments := new Queue(MAX_SEGMENTS, SendSegment(0, 0, 0, 0));
      ackPos, writePos, readPos, window := 0, 0, 0, WINDOW;
      log, popped, stream, base := [], 0, [], 0;
    }

    method Reset(seqnbr: nat)
      requires Shape() && seqnbr < UINT32
      modifies this, buffer.queue, segments
      ensures Valid() && log == [] && stream == [] && base == seqnbr && window == WINDOW
      ensures ackPos == writePos == seqnbr && Segs() == []
    {
      ackPos, writePos, readPos, window := seqnbr, seqnbr, 0, WINDOW;
      buffer.Clear();
      segments.Clear();
      log, popped, stream, base := [], 0, [], seqnbr;
    }

    /**
     Whether a write of `n` bytes leaves the queue consistent, by taking them in or by
     refusing them. It does not if there is room for the bytes and none for the segment.
     Numbers from 2^32 on are not modelled.
     */
    predicate Takes(n: nat)
      requires Shape()
      reads this, buffer, buffer.queue, buffer.queue.items, segments, segments.items
    {
      n > WINDOW - buffer.Size() || ((n == 0 || segments.Size() < MAX_SEGMENTS) && writePos + n < UINT32)
    }

    /** Some write may not be taken. */
    ghost predicate Exhausted()
      requires Shape()
      reads this, buffer, buffer.queue, segments, segments.items
    {
      |Segs()| == MAX_SEGMENTS || writePos + WINDOW >= UINT32
    }

    lemma TakesOrExhausted(n: nat)
      requires Shape()
      ensures |Segs()| <= MAX_SEGMENTS && (Takes(n) || Exhausted())
    {
    }

    /**
     Queues a segment at the write position. If only the segment table is full,
     its bytes are taken in and counted all the same, which breaks the queue.
     */
    method WriteBack(segment: SendSegment, data: seq<byte>, sendLength: nat) returns (ok: bool)
      requires Valid() && (|data| <= WINDOW - |Contents()| ==> writePos + |data| < UINT32) && sendLength <= |data|
      modifies this`writePos, this`log, this`stream, buffer.queue, buffer.queue.items, segments, segments.items
      ensures ok
        <==> |data| <= WINDOW - |old(Contents())| && segment.seqnbr == old(writePos) && |old(Segs())| < MAX_SEGMENTS
      ensures ok ==>
        && writePos == old(writePos) + |data| && stream == old(stream) + data
        && log == old(log) + [segment.(dataLength := |data|, sendLength := sendLength)]
      ensures !ok ==> log == old(log) && stream == old(stream)
      ensures Shape()
      ensures Segs() ==
        if ok then old(Segs()) + [segment.(dataLength := |data|, sendLength := sendLength)] else old(Segs())
      ensures var taken := |data| <= WINDOW - |old(Contents())| && segment.seqnbr == old(writePos);
        && Contents() == (if taken then old(Contents()) + data else old(Contents()))
        && writePos == if taken then old(writePos) + |data| else old(writePos)
      ensures Valid() <==> ok || data == [] || |data| > WINDOW - |old(Contents())| || segment.seqnbr != old(writePos)
    {
      hide Consistent, Written, RingBuffer.Valid, RingBuffer.Contents, Queue.Valid, Queue.Contents;
      if |data| > WINDOW - buffer.Size() {
        return false;
      }
      if segment.seqnbr != writePos {
        return false;
      }
      var s := segment.(dataLength := |data|, sendLength := sendLength);
      WriteConsistent(Segs(), Contents(), ackPos, writePos, readPos, log, popped, stream, base, s, data);
      OnlyWithSegment(Segs(), Contents(), ackPos, writePos, readPos, log, popped, stream, base, data);
      ok := Append(s, data);
      if ok {
        log, stream := log + [s], stream + data;
      }
    }

    /** Stores the bytes, then the segment, which may find the table full. */
    method Append(s: SendSegment, data: seq<byte>) returns (ok: bool)
      requires Shape() && |data| <= WINDOW - |Contents()|
      modifies this`writePos, buffer.queue, buffer.queue.items, segments, segments.items
      ensures Shape() && writePos == old(writePos) + |data| && Contents() == old(Contents()) + data
      ensures ok <==> |old(Segs())| < MAX_SEGMENTS
      ensures Segs() == if ok then old(Segs()) + [s] else old(Segs())
    {
      hide Written, RingBuffer.Valid, RingBuffer.Contents, Queue.Valid, Queue.Contents;
      WrittenAtEnd(Contents(), data);
      var written := buffer.Write(data, -1);
      writePos := writePos + |data|;
      ok := segments.PushBack(s);
    }

    /** The buffer holds a byte for every unacknowledged number. */
    lemma Buffered()
      requires Valid()
      ensures |Contents()| == writePos - ackPos
    {
    }

    predicate HasReadable()
      requires Shape()
      reads this, buffer, buffer.queue, segments, segments.items
    {
      segments.Size() > readPos
    }

    /**
     Hands out the next segment and its bytes, unless it does not fit the window.
     The window's end is a 32-bit sum.
     */
    method ReadOneSegment(maxLength: nat) returns (segment: SendSegment, data: seq<byte>, ok: bool)
      requires Valid() && (Segs() == [] || (readPos < |Segs()| && Segs()[readPos].dataLength <= maxLength))
      modifies this`readPos
      ensures Valid()
      ensures ok <==> old(Segs()) != [] && InWindow(old(Segs())[old(readPos)], ackPos, window)
      ensures ok ==>
        && old(Next()) < |log| && segment == log[old(Next())] && Next() == old(Next()) + 1
        && base <= segment.seqnbr && segment.seqnbr + segment.dataLength <= base + |stream|
        && data == stream[segment.seqnbr - base..segment.seqnbr - base + segment.dataLength]
      ensures !ok ==> readPos == old(readPos) && data == []
    {
      hide Consistent, RingBuffer.Valid, RingBuffer.Contents, Queue.Valid, Queue.Contents;
      if segments.Size() == 0 {
        return SendSegment(0, 0, 0, 0), [], false;
      }
      var active := segments.At(readPos);
      ReadConsistent(Segs(), Contents(), ackPos, writePos, readPos, log, popped, stream, base);
      ReadNextConsistent(Segs(), Contents(), ackPos, writePos, readPos, log, popped, stream, base);
      if active.seqnbr + active.sendLength > (ackPos + window) % UINT32 {
        return active, [], false;
      }
      data := buffer.Peek(active.seqnbr - ackPos,
                          if active.dataLength < maxLength then active.dataLength else maxLength);
      segment, ok := active, true;
      readPos := readPos + 1;
    }

    /** Takes the front segment off, and its bytes. */
    method PopAcked()
      requires Valid() && Segs() != []
      modifies this`readPos, this`ackPos, this`popped, buffer.queue, segments
      ensures Valid() && Segs() == old(Segs())[1..] && ackPos == old(ackPos) + old(Segs())[0].dataLength
      ensures popped == old(popped) + 1 && readPos == if old(readPos) > 0 then old(readPos) - 1 else 0
    {
      hide Consistent, RingBuffer.Valid, RingBuffer.Contents, Queue.Valid, Queue.Contents;
      PopConsistent(Segs(), Contents(), ackPos, writePos, readPos, log, popped, stream, base);
      var segment := segments.At(0);
      var consumed := buffer.Consume(segment.dataLength);
      var front := segments.PopFront();
      assert old(Segs())[1..] == Segs();
      if readPos > 0 {
        readPos := readPos - 1;
      }
      ackPos := segment.seqnbr + segment.dataLength;
      popped := popped + 1;
    }

    /** Drops every segment that is acknowledged in full. */
    method Ack(n: nat)
      requires Valid() && n <= writePos
      modifies this`readPos, this`ackPos, this`popped, buffer.queue, segments
      ensures Valid()
      ensures var k := Acked(old(Segs()), old(ackPos), n);
        && popped == old(popped) + k && ackPos == EndOf(old(Segs()), old(ackPos), k)
        && Next() == if old(Next()) >= popped then old(Next()) else popped
    {
      hide Consistent, Acked, EndOf, Tiles, RingBuffer.Valid, RingBuffer.Contents, Queue.Valid, Queue.Contents;
      while n > ackPos
        invariant Valid() && popped + Acked(Segs(), ackPos, n) == old(popped) + Acked(old(Segs()), old(ackPos), n)
        invariant EndOf(Segs(), ackPos, Acked(Segs(), ackPos, n)) ==
          EndOf(old(Segs()), old(ackPos), Acked(old(Segs()), old(ackPos), n))
        invariant popped >= old(popped) && Next() == if old(Next()) >= popped then old(Next()) else popped
        decreases |Segs()|
      {
        NothingLeft(Segs(), Contents(), ackPos, writePos, readPos, log, popped, stream, base, n);
        PopConsistent(Segs(), Contents(), ackPos, writePos, readPos, log, popped, stream, base);
        var segment := segments.At(0);
        if segment.seqnbr + segment.dataLength > n {
          break;
        }
        AckStep(Segs(), ackPos, n);
        PopAcked();
      }
      AckStop(Segs(), ackPos, n);
    }

    /**
     The sending loop of a connection. It ends exactly if every segment still to be read is
     in the window: one that is not is never passed, since nothing in the loop moves the window.
     */
    method Drain(maxLength: nat) returns (sent: seq<SendSegment>, wire: seq<seq<byte>>, ends: bool)
      requires Valid() && forall i :: 0 <= i < |Segs()| ==> Segs()[i].dataLength <= maxLength
      modifies this`readPos
      ensures Valid() && Segs() == old(Segs())
      ensures ends <==> forall i :: old(readPos) <= i < |Segs()| ==> InWindow(Segs()[i], ackPos, window)
      ensures window == WINDOW ==> (ends <==> old(readPos) == |Segs()| || ackPos + WINDOW < UINT32)
      ensures ends ==> !HasReadable()
      ensures !ends ==> HasReadable() && !InWindow(Segs()[readPos], ackPos, window)
      ensures old(Next()) <= Next() <= |log| && sent == log[old(Next())..Next()] && |wire| == |sent|
      ensures forall i :: 0 <= i < |sent| ==> SentBytes(sent[i], wire[i], stream, base)
    {
      hide Consistent, InWindow, RingBuffer.Valid, RingBuffer.Contents, Queue.Valid, Queue.Contents;
      Ends(Segs(), Contents(), ackPos, writePos, readPos, log, popped, stream, base);
      Windows();
      sent, wire, ends := [], [], true;
      while HasReadable() && ends
        invariant Valid() && Segs() == old(Segs()) && Contents() == old(Contents())
        invariant old(readPos) <= readPos <= |Segs()|
        invariant Next() <= |log| && sent == log[old(Next())..Next()] && |wire| == |sent|
        invariant forall i :: 0 <= i < |sent| ==> SentBytes(sent[i], wire[i], stream, base)
        invariant forall i :: old(readPos) <= i < readPos ==> InWindow(Segs()[i], ackPos, window)
        invariant !ends ==> HasReadable() && !InWindow(Segs()[readPos], ackPos, window)
        decreases |Segs()| - readPos, ends
      {
        var segment, data, ok := ReadOneSegment(maxLength);
        if ok {
          sent, wire := sent + [segment], wire + [data];
        } else {
          ends := false;
        }
      }
      assert old(readPos) < |Segs()| ==> (InWindow(Segs()[old(readPos)], ackPos, WINDOW) <==> ackPos + WINDOW < UINT32);
    }

    lemma Windows()
      requires Valid()
      ensures forall i :: 0 <= i < |Segs()| ==> (InWindow(Segs()[i], ackPos, WINDOW) <==> ackPos + WINDOW < UINT32)
    {
      hide Consistent, InWindow, RingBuffer.Contents, Queue.Valid, Queue.Contents;
      forall i | 0 <= i < |Segs()|
        ensures InWindow(Segs()[i], ackPos, WINDOW) <==> ackPos + WINDOW < UINT32
      {
        DefaultWindow(Segs(), Contents(), ackPos, writePos, readPos, log, popped, stream, base, i);
      }
    }
  }

  ghost predicate SentBytes(s: SendSegment, bytes: seq<byte>, stream: seq<byte>, base: nat) {
    && base <= s.seqnbr && s.seqnbr + s.dataLength <= base + |stream|
    && bytes == stream[s.seqnbr - base..s.seqnbr - base + s.dataLength]
  }

  lemma ReadNextConsistent(segs: seq<SendSegment>, contents: seq<byte>, ackPos: nat, writePos: nat, readPos: nat,
                           log: seq<SendSegment>, popped: nat, stream: seq<byte>, base: nat)
    requires Consistent(segs, contents, ackPos, writePos, readPos, log, popped, stream, base) && readPos < |segs|
    ensures Consistent(segs, contents, ackPos, writePos, readPos + 1, log, popped, stream, base)
  {
  }

  lemma Ends(segs: seq<SendSegment>, contents: seq<byte>, ackPos: nat, writePos: nat, readPos: nat,
             log: seq<SendSegment>, popped: nat, stream: seq<byte>, base: nat)
    requires Consistent(segs, contents, ackPos, writePos, readPos, log, popped, stream, base)
    ensures popped + |segs| == |log| && readPos <= |segs|
  {
  }

  /** Counting bytes without queueing their segment is consistent only if there are none. */
  lemma OnlyWithSegment(segs: seq<SendSegment>, contents: seq<byte>, ackPos: nat, writePos: nat, readPos: nat,
                        log: seq<SendSegment>, popped: nat, stream: seq<byte>, base: nat, data: seq<byte>)
    requires Consistent(segs, contents, ackPos, writePos, readPos, log, popped, stream, base)
    ensures Consistent(segs, contents + data, ackPos, writePos + |data|, readPos, log, popped, stream, base)
      <==> data == []
  {
    TilesOnlyOnce(segs, ackPos, writePos, writePos + |data|);
  }
}
