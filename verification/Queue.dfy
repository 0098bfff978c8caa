/**
 The bounded queue of libraries/support/queue.h: an array with a read and a write
 index that are brought back below twice its length on every push.
 */
module Queues {

  /** `s` filled up to length `n` with `zero`. */
  function Padded<T>(s: seq<T>, n: nat, zero: T): (r: seq<T>)
    ensures |r| == if |s| < n then n else |s|
    ensures forall i :: 0 <= i < |r| ==> r[i] == if i < |s| then s[i] else zero
  {
    if |s| < n then s + seq(n - |s|, _ => zero) else s
  }

  /**
   What `Replace` leaves behind. An offset equal to the capacity is accepted and
   lands on the first item; a larger one is refused after the queue has been
   filled up.
   */
  function Replaced<T>(s: seq<T>, offset: nat, x: T, capacity: nat, zero: T): seq<T>
    requires |s| <= capacity && capacity > 0
  {
    if offset < capacity then Padded(s, offset + 1, zero)[offset := x]
    else if offset == capacity then Padded(s, capacity, zero)[0 := x]
    else Padded(s, capacity, zero)
  }

  /** `Replace` stores at the offset it is given exactly when that offset is below the capacity. */
  lemma ReplaceStoresAtOffset<T>(s: seq<T>, offset: nat, x: T, capacity: nat, zero: T)
    requires |s| <= capacity && capacity > 0
    ensures var r := Replaced(s, offset, x, capacity, zero);
      (offset < |r| && r[offset] == x && (forall i :: 0 <= i < |s| && i != offset ==> r[i] == s[i]))
      <==> offset < capacity
  {
  }

  /** The failing family has members: a full queue of one item loses it to an item meant for offset 1. */
  lemma ReplaceAtCapacityOverwritesFront()
    ensures Replaced([7], 1, 9, 1, 0) == [9]
  {
  }

  lemma PadSteps<T>(s: seq<T>, zero: T)
    ensures Padded(s, |s|, zero) == s
    ensures forall n: nat :: |s| <= n ==> Padded(s, n, zero) + [zero] == Padded(s, n + 1, zero)
  {
  }

  lemma PadEnough<T>(s: seq<T>, n: nat, zero: T)
    ensures n <= |s| ==> Padded(s, n, zero) == s
  {
  }

  /** An index below twice the length, brought into the array. */
  function Wrap(x: nat, n: nat): (r: nat)
    requires x < 2 * n
    ensures r < n
  {
    if x < n then x else x - n
  }

  lemma WrapIsMod(x: nat, n: nat)
    requires x < 2 * n
    ensures x % n == Wrap(x, n) && x / n == (if x < n then 0 else 1)
  {
  }

  /** `n` items of a circular array, starting at index `r`. */
  function Ring<T>(items: seq<T>, r: nat, n: nat): (s: seq<T>)
    requires r + n <= 2 * |items|
    ensures |s| == n && forall i :: 0 <= i < n ==> s[i] == items[Wrap(r + i, |items|)]
  {
    seq(n, i requires 0 <= i < n => items[Wrap(r + i, |items|)])
  }

  /** Writing just past the `n` items in use appends to them, as long as the ring has room. */
  lemma RingPush<T>(items: seq<T>, r: nat, n: nat, x: T)
    requires n < |items| && r + n < 2 * |items|
    ensures Ring(items[Wrap(r + n, |items|) := x], r, n + 1) == Ring(items, r, n) + [x]
  {
  }

  /** A lap can be taken off the start index. */
  lemma RingLap<T>(items: seq<T>, r: nat, n: nat)
    requires |items| <= r && r + n <= 2 * |items|
    ensures Ring(items, r - |items|, n) == Ring(items, r, n)
  {
  }

  lemma RingSet<T>(items: seq<T>, r: nat, n: nat, i: nat, x: T)
    requires i < n <= |items| && r + n <= 2 * |items|
    ensures Ring(items[Wrap(r + i, |items|) := x], r, n) == Ring(items, r, n)[i := x]
  {
  }

  class Queue<T> {
    const items: array<T>
    const zero: T
    var readIdx: nat
    var writeIdx: nat

    ghost predicate Valid()
      reads this
    {
      && readIdx <= writeIdx <= readIdx + items.Length
      && (writeIdx < 2 * items.Length || (items.Length == 0 && writeIdx == 0))
    }

    ghost function Contents(): (s: seq<T>)
      requires Valid()
      reads this, items
      ensures |s| == writeIdx - readIdx <= items.Length
    {
      Ring(items[..], readIdx, writeIdx - readIdx)
    }

    constructor (capacity: nat, zero: T)
      ensures Valid() && fresh(items) && items.Length == capacity && this.zero == zero && Contents() == []
    {
      items := new T[capacity](_ => zero);
      this.zero := zero;
      readIdx, writeIdx := 0, 0;
    }

    method Clear()
      requires Valid()
      modifies this
      ensures Valid() && Contents() == []
    {
      readIdx, writeIdx := 0, 0;
    }

    function Size(): (n: nat)
      requires Valid()
      reads this, items
      ensures n == |Contents()|
    {
      writeIdx - readIdx
    }

    method PushBack(x: T) returns (ok: bool)
      requires Valid()
      modifies this, items
      ensures Valid()
      ensures ok <==> |old(Contents())| < items.Length
      ensures Contents() == if ok then old(Contents()) + [x] else old(Contents())
    {
      hide Ring;
      if writeIdx - readIdx >= items.Length {
        return false;
      }
      RingPush(items[..], readIdx, writeIdx - readIdx, x);
      WrapIsMod(writeIdx, items.Length);
      items[writeIdx % items.Length] := x;
      writeIdx := writeIdx + 1;
      Normalize();
      return true;
    }

    method Normalize()
      requires readIdx <= writeIdx <= readIdx + items.Length && writeIdx <= 2 * items.Length
      requires readIdx < 2 * items.Length
      modifies this
      ensures Valid() && Contents() == Ring(items[..], old(readIdx), old(writeIdx - readIdx))
    {
      WrapIsMod(readIdx, items.Length);
      if readIdx >= items.Length {
        RingLap(items[..], readIdx, writeIdx - readIdx);
      }
      var laps := readIdx / items.Length;
      readIdx := readIdx - laps * items.Length;
      writeIdx := writeIdx - laps * items.Length;
    }

    method Replace(offset: nat, x: T) returns (ok: bool)
      requires Valid() && items.Length > 0
      modifies this, items
      ensures Valid()
      ensures ok <==> offset <= items.Length
      ensures Contents() == Replaced(old(Contents()), offset, x, items.Length, zero)
    {
      hide Ring, Padded, Wrap;
      Fill(offset);
      if readIdx + offset > writeIdx {
        return false;
      }
      Target(offset, x);
      items[(readIdx + offset) % items.Length] := x;
      return true;
    }

    /** The loop of replace: makes room for `offset`, as far as there is room. */
    method Fill(offset: nat)
      requires Valid() && items.Length > 0
      modifies this, items
      ensures Valid()
      ensures Contents() == Padded(old(Contents()), if offset < items.Length then offset + 1 else items.Length, zero)
    {
      hide Ring, Padded, Wrap;
      PadSteps(Contents(), zero);
      var more := true;
      while readIdx + offset >= writeIdx && more
        invariant Valid()
        invariant |old(Contents())| <= |Contents()| && Contents() == Padded(old(Contents()), |Contents()|, zero)
        invariant |Contents()| <= offset + 1 || |Contents()| == |old(Contents())|
        invariant !more ==> |Contents()| == items.Length
        decreases items.Length - (writeIdx - readIdx), more
      {
        more := PushBack(zero);
      }
      PadEnough(old(Contents()), offset + 1, zero);
      PadEnough(old(Contents()), items.Length, zero);
    }

    /** Where the store of `Replace` lands: at `offset`, or at the front if `offset` is the capacity. */
    lemma Target(offset: nat, x: T)
      requires Valid() && items.Length > 0 && readIdx + offset <= writeIdx
      requires (offset < |Contents()| || |Contents()| == items.Length)
      ensures var at, i := (readIdx + offset) % items.Length, if offset == items.Length then 0 else offset;
        at < items.Length && Ring(items[..][at := x], readIdx, writeIdx - readIdx) == Contents()[i := x]
    {
      WrapIsMod(readIdx + offset, items.Length);
      RingSet(items[..], readIdx, writeIdx - readIdx, if offset == items.Length then 0 else offset, x);
    }

    method PopFront() returns (x: T)
      requires Valid() && |Contents()| > 0
      modifies this
      ensures Valid() && [x] + Contents() == old(Contents())
    {
      WrapIsMod(readIdx, items.Length);
      x := items[readIdx % items.Length];
      readIdx := readIdx + 1;
    }

    /** Entry `i` from the front, as operator [] gives it for the index begin() + i. */
    method At(i: nat) returns (x: T)
      requires Valid() && i < |Contents()|
      ensures x == Contents()[i]
    {
      WrapIsMod(readIdx + i, items.Length);
      x := items[(readIdx + i) % items.Length];
    }
  }
}
