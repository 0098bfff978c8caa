/**
 The byte ring of libraries/support/ring_buffer.h, on top of the queue.

 The value it stands for is a plain byte sequence; `Written`, prefixes and
 suffixes are what its operations do to that value.
 */
module RingBuffers {
  import opened Bytes
  import opened Queues

  /** `s` with `data` stored at offset `o`, filled with zeros up to there if need be. */
  function Written(s: seq<byte>, o: nat, data: seq<byte>): (r: seq<byte>)
    ensures data != [] ==> |r| == if |s| < o + |data| then o + |data| else |s|
    ensures data != [] ==> forall i :: 0 <= i < |r| ==>
      r[i] == if o <= i < o + |data| then data[i - o] else if i < |s| then s[i] else 0
  {
    if data == [] then s else
      var p := Padded(s, o + |data|, 0);
      p[..o] + data + p[o + |data|..]
  }

  /** Appending is writing at the end. */
  lemma WrittenAtEnd(s: seq<byte>, data: seq<byte>)
    ensures Written(s, |s|, data) == s + data
  {
  }

  /** Writing one byte more replaces the item after the bytes written so far. */
  lemma WrittenStep(s: seq<byte>, o: nat, data: seq<byte>, i: nat, capacity: nat)
    requires i < |data| && o + |data| <= capacity && |s| <= capacity
    ensures |Written(s, o, data[..i])| <= capacity
    ensures Written(s, o, data[..i + 1]) == Replaced(Written(s, o, data[..i]), o + i, data[i], capacity, 0)
  {
    var before, after := Written(s, o, data[..i]), Written(s, o, data[..i + 1]);
    ReplacedAt(before, o + i, data[i], capacity);
    var r := Replaced(before, o + i, data[i], capacity, 0);
    hide Written, Replaced;
    forall k | 0 <= k < |after|
      ensures after[k] == r[k]
    {
    }
  }

  lemma ReplacedAt(s: seq<byte>, offset: nat, x: byte, capacity: nat)
    requires |s| <= capacity && offset < capacity
    ensures var r := Replaced(s, offset, x, capacity, 0);
      && |r| == (if |s| < offset + 1 then offset + 1 else |s|)
      && forall k :: 0 <= k < |r| ==> r[k] == if k == offset then x else if k < |s| then s[k] else 0
  {
  }

  /** How peek clips the length it is asked for. */
  function PeekLength(size: nat, start: nat, length: nat): nat {
    var end := if start + length > size then size else start + length;
    if end > start then end - start else 0
  }

  class RingBuffer {
    const queue: Queue<byte>

    ghost predicate Valid()
      reads this, queue
    {
      queue.Valid() && queue.zero == 0 && 0 < queue.items.Length < INT_LIMIT
    }

    ghost function Contents(): (s: seq<byte>)
      requires Valid()
      reads this, queue, queue.items
      ensures |s| <= Capacity()
    {
      queue.Contents()
    }

    function Capacity(): nat
      reads this
    {
      queue.items.Length
    }

    function Size(): (n: nat)
      requires Valid()
      reads this, queue, queue.items
      ensures n == |Contents()|
    {
      queue.Size()
    }

    constructor (capacity: nat)
      requires 0 < capacity < INT_LIMIT
      ensures Valid() && fresh(queue) && fresh(queue.items) && Capacity() == capacity && Contents() == []
    {
      queue := new Queue(capacity, 0);
    }

    /**
     Stores `data` at `offset` from the front; -1 appends. The bound is checked in
     unsigned arithmetic, so a negative offset is refused as long as the sum stays
     negative, and a sum of 2^32 or more would not be.
     */
    method Write(data: seq<byte>, offset: int) returns (ok: bool)
      requires Valid() && -INT_LIMIT <= offset < INT_LIMIT
      requires offset < -1 ==> offset + |data| < 0
      requires (if offset == -1 then |Contents()| else offset) + |data| < UINT32
      modifies queue, queue.items
      ensures Valid()
      ensures var o := if offset == -1 then |old(Contents())| else offset;
        && (ok <==> offset >= -1 && o + |data| <= Capacity())
        && Contents() == if ok then Written(old(Contents()), o, data) else old(Contents())
    {
      hide Written, Replaced, Ring;
      var o := if offset == -1 then Size() else offset;
      if (o % UINT32 + |data|) % UINT32 > Capacity() {
        return false;
      }
      assert data[..0] == [];
      WrittenNothing(Contents(), o);
      for i := 0 to |data|
        invariant Valid() && Contents() == Written(old(Contents()), o, data[..i])
      {
        WrittenStep(old(Contents()), o, data, i, Capacity());
        var pushed := queue.Replace(o + i, data[i]);
      }
      assert data[..|data|] == data;
      return true;
    }

    method ReadFront(maxLength: nat) returns (data: seq<byte>)
      requires Valid()
      modifies queue
      ensures Valid()
      ensures |data| == (if maxLength > |old(Contents())| then |old(Contents())| else maxLength)
      ensures data + Contents() == old(Contents())
    {
      var n := if maxLength > Size() then Size() else maxLength;
      data := [];
      while |data| < n
        invariant Valid() && |data| <= n && data + Contents() == old(Contents())
      {
        ghost var rest := Contents();
        var c := queue.PopFront();
        assert data + ([c] + Contents()) == (data + [c]) + Contents();
        data := data + [c];
      }
    }

    method Peek(start: nat, length: nat) returns (data: seq<byte>)
      requires Valid()
      ensures |data| == PeekLength(|Contents()|, start, length)
      ensures data != [] ==> start + |data| <= |Contents()| && data == Contents()[start..start + |data|]
    {
      var n := PeekLength(Size(), start, length);
      data := [];
      while |data| < n
        invariant |data| <= n
        invariant |data| > 0 ==> data == Contents()[start..start + |data|]
      {
        var c := queue.At(start + |data|);
        assert Contents()[start..start + |data| + 1] == Contents()[start..start + |data|] + [c];
        data := data + [c];
      }
    }

    method Consume(maxLength: nat) returns (n: nat)
      requires Valid()
      modifies queue
      ensures Valid()
      ensures n == (if maxLength > |old(Contents())| then |old(Contents())| else maxLength)
      ensures Contents() == old(Contents())[n..]
    {
      var bound := if maxLength > Size() then Size() else maxLength;
      n := 0;
      while n < bound
        invariant Valid() && n <= bound && Contents() == old(Contents())[n..]
      {
        var c := queue.PopFront();
        n := n + 1;
      }
    }

    method Clear()
      requires Valid()
      modifies queue
      ensures Valid() && Contents() == []
    {
      queue.Clear();
    }
  }

  lemma WrittenNothing(s: seq<byte>, o: nat)
    ensures Written(s, o, []) == s
  {
  }
}
