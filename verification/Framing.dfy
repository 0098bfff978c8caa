/**
 The length-prefix framing of kernel/rtl8139.cc: a process writes a stream of
 packets, each after its 16-bit little-endian length, in chunks of any size.

 `Parse` is the reference: the packets of a whole stream and the unfinished rest.
 The driver's write keeps the unfinished rest in a ring buffer and transmits
 packets as they become complete; however the stream is cut into writes, it
 transmits the packets of `Parse` of all bytes it accepted.
 */
module Framing {
  import opened Bytes
  import opened RingBuffers

  const PENDING_CAPACITY: nat := 10 * 1024
  /** The size of the buffer packets are copied to before transmission. */
  const MAX_PACKET: nat := 1600

  function PacketSize(s: seq<byte>): nat
    requires |s| >= 2
  {
    s[0] as nat + 256 * s[1] as nat
  }

  predicate HasPacket(s: seq<byte>) {
    |s| >= 2 && |s| >= 2 + PacketSize(s)
  }

  datatype Parsed = Parsed(packets: seq<seq<byte>>, rest: seq<byte>)

  function Parse(s: seq<byte>): (p: Parsed)
    ensures !HasPacket(p.rest)
  {
    if !HasPacket(s) then Parsed([], s) else
      var n := PacketSize(s);
      var tail := Parse(s[2 + n..]);
      Parsed([s[2..2 + n]] + tail.packets, tail.rest)
  }

  /** The first packet of a stream does not depend on what follows it. */
  lemma FirstPacket(a: seq<byte>, b: seq<byte>)
    requires HasPacket(a)
    ensures HasPacket(a + b) && PacketSize(a + b) == PacketSize(a)
    ensures var n := PacketSize(a); (a + b)[2..2 + n] == a[2..2 + n] && (a + b)[2 + n..] == a[2 + n..] + b
  {
  }

  lemma ParseOne(s: seq<byte>)
    requires HasPacket(s)
    ensures var n := PacketSize(s);
      Parse(s) == Parsed([s[2..2 + n]] + Parse(s[2 + n..]).packets, Parse(s[2 + n..]).rest)
  {
  }

  lemma Associate(p: seq<byte>, q: seq<seq<byte>>, r: seq<seq<byte>>)
    ensures [p] + (q + r) == ([p] + q) + r
  {
  }

  /** Parsing a stream in two parts gives the same packets as parsing it at once. */
  lemma {:induction false} ParseInParts(a: seq<byte>, b: seq<byte>)
    ensures Parse(a + b) == Parsed(Parse(a).packets + Parse(Parse(a).rest + b).packets, Parse(Parse(a).rest + b).rest)
    decreases |a|
  {
    if !HasPacket(a) {
      assert Parse(a) == Parsed([], a);
    } else {
      hide *;
      var n := PacketSize(a);
      FirstPacket(a, b);
      ParseOne(a);
      ParseOne(a + b);
      ParseInParts(a[2 + n..], b);
      var tail := Parse(a[2 + n..]);
      Associate(a[2..2 + n], tail.packets, Parse(tail.rest + b).packets);
    }
  }

  /** A packet as the user writes it. */
  function Framed(packet: seq<byte>): seq<byte>
    requires |packet| < 0x10000
  {
    [(|packet| % 256) as byte, (|packet| / 256) as byte] + packet
  }

  function Stream(packets: seq<seq<byte>>): seq<byte>
    requires forall p <- packets :: |p| < 0x10000
  {
    if packets == [] then [] else Framed(packets[0]) + Stream(packets[1..])
  }

  /** Parsing undoes framing. */
  lemma {:induction false} ParseStream(packets: seq<seq<byte>>)
    requires forall p <- packets :: |p| < 0x10000
    ensures Parse(Stream(packets)) == Parsed(packets, [])
    decreases |packets|
  {
    if packets != [] {
      var s := Stream(packets);
      var n := |packets[0]|;
      assert PacketSize(s) == n && s[2..2 + n] == packets[0];
      assert s[2 + n..] == Stream(packets[1..]);
      ParseStream(packets[1..]);
      assert [packets[0]] + packets[1..] == packets;
    }
  }

  /** What one write offers to the ring: never more than its capacity. */
  function Chunk(data: seq<byte>): (c: seq<byte>)
    ensures c <= data && |c| <= PENDING_CAPACITY && (data != [] ==> c != [])
  {
    if |data| > PENDING_CAPACITY then data[..PENDING_CAPACITY] else data
  }

  class Transmitter {
    const pending: RingBuffer
    /** Every byte that write has taken, and every packet handed to transmit. */
    ghost var accepted: seq<byte>
    ghost var sent: seq<seq<byte>>

    ghost predicate Valid()
      reads this, pending, pending.queue, pending.queue.items
    {
      && pending.Valid() && pending.Capacity() == PENDING_CAPACITY
      && Parse(accepted) == Parsed(sent, pending.Contents())
    }

    constructor ()
      ensures Valid() && fresh(pending) && fresh(pending.queue) && fresh(pending.queue.items)
      ensures accepted == [] && sent == []
    {
      pending := new RingBuffer(PENDING_CAPACITY);
      accepted, sent := [], [];
    }

    /**
     Returns how many bytes were taken. A packet is copied to a buffer of fixed size before it
     is transmitted; `inBounds` says whether those completed by this write fit. At one that
     does not the model stops.
     */
    method Write(data: seq<byte>) returns (n: nat, inBounds: bool)
      requires Valid() && 0 < |data| < INT_LIMIT
      modifies this, pending.queue, pending.queue.items
      ensures n == if |old(pending.Contents())| + |Chunk(data)| <= PENDING_CAPACITY then |Chunk(data)| else 0
      ensures accepted == old(accepted) + (if n == 0 then [] else Chunk(data))
      ensures inBounds <==> n == 0 || AllFit(Parse(old(pending.Contents()) + Chunk(data)).packets)
      ensures old(sent) <= sent <= Parse(accepted).packets
      ensures inBounds ==> Valid()
    {
      hide RingBuffer.Contents, Written, Parse, AllFit;
      var chunk := Chunk(data);
      var ok := pending.Write(chunk, -1);
      if !ok {
        return 0, true;
      }
      WrittenAtEnd(old(pending.Contents()), chunk);
      ParseInParts(accepted, chunk);
      accepted := accepted + chunk;
      inBounds := Drain();
      return |chunk|, inBounds;
    }

    /** The loop of write: transmits every packet that is complete, up to one that is too long. */
    method Drain() returns (inBounds: bool)
      requires pending.Valid() && pending.Capacity() == PENDING_CAPACITY
      modifies this`sent, pending.queue
      ensures pending.Valid() && pending.Capacity() == PENDING_CAPACITY
      ensures inBounds <==> AllFit(Parse(old(pending.Contents())).packets)
      ensures old(sent) <= sent <= old(sent) + Parse(old(pending.Contents())).packets
      ensures inBounds ==>
        && sent == old(sent) + Parse(old(pending.Contents())).packets
        && pending.Contents() == Parse(old(pending.Contents())).rest
    {
      hide RingBuffer.Contents, Parse, AllFit, Progress;
      ghost var all := Parse(pending.Contents());
      ghost var taken := [];
      Begin(pending.Contents());
      var more := true;
      inBounds := true;
      while more
        invariant pending.Valid() && pending.Capacity() == PENDING_CAPACITY
        invariant Progress(all, taken, pending.Contents()) && sent == old(sent) + taken && AllFit(taken)
        invariant !more && inBounds ==> !HasPacket(pending.Contents())
        invariant !inBounds ==> !more && TooLong(pending.Contents())
        decreases |pending.Contents()|, more
      {
        ghost var s := pending.Contents();
        Advance(all, taken, s);
        more, inBounds := TakePacket();
        if more {
          taken := taken + [s[2..2 + PacketSize(s)]];
        }
      }
      Finished(all, taken, pending.Contents());
    }

    /** One turn of that loop. */
    method TakePacket() returns (more: bool, inBounds: bool)
      requires pending.Valid()
      modifies this`sent, pending.queue
      ensures pending.Valid()
      ensures inBounds <==> (HasPacket(old(pending.Contents())) ==> PacketSize(old(pending.Contents())) <= MAX_PACKET)
      ensures more <==> HasPacket(old(pending.Contents())) && inBounds
      ensures !more ==> pending.Contents() == old(pending.Contents()) && sent == old(sent)
      ensures more ==> var s, size := old(pending.Contents()), PacketSize(old(pending.Contents()));
        pending.Contents() == s[2 + size..] && sent == old(sent) + [s[2..2 + size]]
    {
      hide RingBuffer.Contents;
      if pending.Size() < 2 {
        return false, true;
      }
      var header := pending.Peek(0, 2);
      var size := PacketSize(header);
      if pending.Size() < 2 + size {
        return false, true;
      }
      if size > MAX_PACKET {
        return false, false;
      }
      var consumed := pending.Consume(2);
      var payload := pending.ReadFront(size);
      ghost var s := old(pending.Contents());
      assert payload == s[2..][..size] == s[2..2 + size];
      assert pending.Contents() == s[2..][size..] == s[2 + size..];
      sent := sent + [payload];
      return true, true;
    }
  }

  ghost predicate AllFit(packets: seq<seq<byte>>) {
    forall p <- packets :: |p| <= MAX_PACKET
  }

  /** `taken` and then the packets of `rest` are the packets of the whole. */
  ghost predicate Progress(all: Parsed, taken: seq<seq<byte>>, rest: seq<byte>) {
    all == Parsed(taken + Parse(rest).packets, Parse(rest).rest)
  }

  ghost predicate TooLong(s: seq<byte>) {
    HasPacket(s) && PacketSize(s) > MAX_PACKET
  }

  lemma Begin(s: seq<byte>)
    ensures Progress(Parse(s), [], s) && AllFit([])
  {
    assert [] + Parse(s).packets == Parse(s).packets;
  }

  lemma Advance(all: Parsed, taken: seq<seq<byte>>, s: seq<byte>)
    requires Progress(all, taken, s) && AllFit(taken)
    ensures HasPacket(s) && PacketSize(s) <= MAX_PACKET ==>
      var n := PacketSize(s);
      |s[2 + n..]| < |s| && Progress(all, taken + [s[2..2 + n]], s[2 + n..]) && AllFit(taken + [s[2..2 + n]])
  {
    if HasPacket(s) && PacketSize(s) <= MAX_PACKET {
      hide Parse;
      ParsedFirst(taken, s);
    }
  }

  /** All packets fit exactly if none was too long, and then all have been taken. */
  lemma Finished(all: Parsed, taken: seq<seq<byte>>, s: seq<byte>)
    requires Progress(all, taken, s) && AllFit(taken) && (!HasPacket(s) || TooLong(s))
    ensures taken <= all.packets
    ensures AllFit(all.packets) <==> !HasPacket(s)
    ensures !HasPacket(s) ==> all == Parsed(taken, s)
  {
    if HasPacket(s) {
      ParsedFirst(taken, s);
      assert s[2..2 + PacketSize(s)] in all.packets;
    }
  }

  lemma ParsedFirst(taken: seq<seq<byte>>, s: seq<byte>)
    requires HasPacket(s)
    ensures var n := PacketSize(s);
      && Parse(s).packets == [s[2..2 + n]] + Parse(s[2 + n..]).packets && Parse(s).rest == Parse(s[2 + n..]).rest
      && taken + Parse(s).packets == (taken + [s[2..2 + n]]) + Parse(s[2 + n..]).packets
  {
  }
}
