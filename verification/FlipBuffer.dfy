/**
 The two-sided scratch buffer of libraries/support/flip_buffer.h.

 Blocks are handed out from one side until it is full; then the other side is
 emptied and takes over. A handle packs side, generation and offset into 64 bits.
 `Ledger` relates every block ever handed out to the state: how much was allocated
 after a block decides how long it is certain to live.
 */
module FlipBuffers {
  import opened Bytes

  const GENERATIONS: nat := 0x1_0000
  const SIDE_UNIT: nat := 0x4000_0000_0000_0000

  // Handles.

  function Pack(side: nat, generation: nat, offset: nat): nat {
    side * SIDE_UNIT + generation * UINT32 + offset
  }

  function SideOf(handle: nat): nat { handle / SIDE_UNIT }

  function GenerationOf(handle: nat): nat { handle / UINT32 % GENERATIONS }

  function OffsetOf(handle: nat): nat { handle % UINT32 }

  /** Packing loses nothing, fits 64 bits and never gives the null handle. */
  lemma Unpack(side: nat, generation: nat, offset: nat)
    requires 1 <= side <= 2 && generation < GENERATIONS && offset < UINT32
    ensures var h := Pack(side, generation, offset);
      SideOf(h) == side && GenerationOf(h) == generation && OffsetOf(h) == offset && 0 < h < 4 * SIDE_UNIT
  {
    var h := Pack(side, generation, offset);
    assert h / UINT32 == side * 0x4000_0000 + generation;
  }

  /** Generations count resets, and wrap. */
  function Generation(side: nat, resets: nat): nat {
    ((if side == 0 then 1000 else 60000) + resets) % GENERATIONS
  }

  /** A generation comes back after exactly every 2^16 resets. */
  lemma GenerationRepeats(side: nat, before: nat, now: nat)
    requires before <= now
    ensures Generation(side, before) == Generation(side, now) <==> (now - before) % GENERATIONS == 0
  {
  }

  // Blocks.

  /** A block: its side, how often that side had been reset, where it is, and how much had been allocated with it. */
  datatype Block = Block(side: nat, resets: nat, offset: nat, length: nat, upTo: nat)

  datatype Side = Side(size: nat, generation: nat, data: seq<byte>)

  ghost predicate Live(b: Block, resets: seq<nat>) {
    b.side < |resets| && b.resets == resets[b.side]
  }

  ghost predicate BlockOk(b: Block, sizes: seq<nat>, resets: seq<nat>, cur: nat, total: nat, max: nat)
    requires |sizes| == |resets| == 2 && cur < 2
  {
    && b.side < 2 && b.resets <= resets[b.side] && b.upTo <= total && b.offset + b.length <= max
    && (Live(b, resets) ==> b.offset + b.length <= sizes[b.side] && (b.side != cur ==> sizes[cur] <= total - b.upTo))
    && (!Live(b, resets) ==> total - b.upTo > max)
  }

  ghost predicate Apart(a: Block, b: Block) {
    a.offset + a.length <= b.offset || b.offset + b.length <= a.offset
  }

  ghost predicate Ledger(log: seq<Block>, sizes: seq<nat>, resets: seq<nat>, cur: nat, total: nat, max: nat) {
    && |sizes| == |resets| == 2 && cur < 2
    && (forall k :: 0 <= k < |log| ==> BlockOk(log[k], sizes, resets, cur, total, max))
    && (forall j, k :: 0 <= j < k < |log| && log[j].side == log[k].side && log[j].resets == log[k].resets ==>
         Apart(log[j], log[k]))
  }

  /** A block on the current side. */
  lemma LedgerAlloc(log: seq<Block>, sizes: seq<nat>, resets: seq<nat>, cur: nat, total: nat, max: nat, length: nat)
    requires Ledger(log, sizes, resets, cur, total, max) && sizes[cur] + length <= max
    ensures Ledger(log + [Block(cur, resets[cur], sizes[cur], length, total + length)],
      sizes[cur := sizes[cur] + length], resets, cur, total + length, max)
  {
    var log' := log + [Block(cur, resets[cur], sizes[cur], length, total + length)];
    forall j, k | 0 <= j < k < |log'| && log'[j].side == log'[k].side && log'[j].resets == log'[k].resets
      ensures Apart(log'[j], log'[k])
    {
      assert BlockOk(log[j], sizes, resets, cur, total, max);
    }
  }

  /** Emptying the other side: whatever lived there has seen more than a whole side allocated since. */
  lemma LedgerFlip(log: seq<Block>, sizes: seq<nat>, resets: seq<nat>, cur: nat, total: nat, max: nat, length: nat)
    requires Ledger(log, sizes, resets, cur, total, max) && length > max - sizes[cur] && length <= max
    ensures var other := 1 - cur;
      Ledger(log + [Block(other, resets[other] + 1, 0, length, total + length)],
             sizes[other := length], resets[other := resets[other] + 1], other, total + length, max)
  {
    var other := 1 - cur;
    var log' := log + [Block(other, resets[other] + 1, 0, length, total + length)];
    forall j, k | 0 <= j < k < |log'| && log'[j].side == log'[k].side && log'[j].resets == log'[k].resets
      ensures Apart(log'[j], log'[k])
    {
      assert BlockOk(log[j], sizes, resets, cur, total, max);
    }
  }

  /** Where a handle leads. */
  datatype Place = Place(side: nat, offset: nat)

  function HandleOf(b: Block): nat {
    Pack(b.side + 1, Generation(b.side, b.resets), b.offset)
  }

  class FlipBuffer {
    const max: nat
    var sides: seq<Side>
    var cur: nat
    ghost var resets: seq<nat>
    ghost var log: seq<Block>
    /** Everything allocated so far. */
    ghost var total: nat

    ghost predicate Valid()
      reads this
    {
      && max < UINT32 && |sides| == 2 && |sides[0].data| == |sides[1].data| == max
      && sides[0].size <= max && sides[1].size <= max
      && Ledger(log, [sides[0].size, sides[1].size], resets, cur, total, max)
      && sides[0].generation == Generation(0, resets[0]) && sides[1].generation == Generation(1, resets[1])
    }

    constructor (max: nat, junk: seq<byte>)
      requires max < UINT32 && |junk| == max
      ensures Valid() && this.max == max && log == [] && total == 0 && cur == 0
      ensures sides == [Side(0, 1000, junk), Side(0, 60000, junk)]
    {
      this.max := max;
      sides, cur := [Side(0, 1000, junk), Side(0, 60000, junk)], 0;
      resets, log, total := [0, 0], [], 0;
    }

    method Alloc(length: nat) returns (handle: nat)
      requires Valid()
      modifies this
      ensures Valid()
      ensures length > max ==> handle == 0 && unchanged(this)
      ensures length <= max ==>
        && |log| == |old(log)| + 1 && log[..|old(log)|] == old(log)
        && log[|old(log)|].length == length && log[|old(log)|].side == cur && Live(log[|old(log)|], resets)
        && handle == HandleOf(log[|old(log)|]) && total == old(total) + length == log[|old(log)|].upTo
      ensures length <= max ==> cur == if length > max - old(sides[cur].size) then 1 - old(cur) else old(cur)
      ensures sides[0].data == old(sides[0].data) && sides[1].data == old(sides[1].data)
    {
      hide Ledger, Generation;
      if length > max {
        return 0;
      }
      LedgerShape(log, [sides[0].size, sides[1].size], resets, cur, total, max);
      ghost var sizes := [sides[0].size, sides[1].size];
      if length > max - sides[cur].size {
        LedgerFlip(log, sizes, resets, cur, total, max, length);
        cur := 1 - cur;
        NextGeneration(cur, resets[cur]);
        sides := sides[cur := Side(0, (sides[cur].generation + 1) % GENERATIONS, sides[cur].data)];
        resets := resets[cur := resets[cur] + 1];
        assert sizes[cur := length] ==
          [sides[cur := sides[cur].(size := length)][0].size, sides[cur := sides[cur].(size := length)][1].size];
      } else {
        LedgerAlloc(log, sizes, resets, cur, total, max, length);
        assert sizes[cur := sizes[cur] + length]
          == [sides[cur := sides[cur].(size := sizes[cur] + length)][0].size,
                                       sides[cur := sides[cur].(size := sizes[cur] + length)][1].size];
      }
      handle := Pack(if cur == 0 then 1 else 2, sides[cur].generation, sides[cur].size);
      log, total := log + [Block(cur, resets[cur], sides[cur].size, length, total + length)], total + length;
      sides := sides[cur := sides[cur].(size := sides[cur].size + length)];
    }

    /** The place behind a handle, if there is one. */
    function Data(handle: nat): (p: Option<Place>)
      requires Valid()
      reads this
      ensures p.Some? ==> p.value.side < 2 && p.value.offset < sides[p.value.side].size
    {
      var side := SideOf(handle);
      if side != 1 && side != 2 then None
      else if GenerationOf(handle) != sides[side - 1].generation || OffsetOf(handle) >= sides[side - 1].size then None
      else Some(Place(side - 1, OffsetOf(handle)))
    }

    /**
     What a handle is good for. It leads to its block at least until more than a whole
     side has been allocated after it, and after its side was reset it leads nowhere,
     for as long as there are fewer than 2^16 resets.
     */
    lemma HandleLifetime(k: nat)
      requires Valid() && k < |log|
      ensures var b := log[k];
        && b.side < 2
        && (total - b.upTo <= max ==> Live(b, resets))
        && (Live(b, resets) && b.length > 0 ==> Data(HandleOf(b)) == Some(Place(b.side, b.offset)))
        && (Live(b, resets) ==> b.offset + b.length <= max)
        && (!Live(b, resets) && resets[b.side] - b.resets < GENERATIONS ==> Data(HandleOf(b)) == None)
    {
      var b := log[k];
      assert BlockOk(b, [sides[0].size, sides[1].size], resets, cur, total, max);
      HandleParts(b, max);
      GenerationRepeats(b.side, b.resets, resets[b.side]);
      hide Pack, SideOf, GenerationOf, OffsetOf, Generation, Ledger;
    }

    /** Blocks that live at the same time never share a byte. */
    lemma LiveBlocksApart(j: nat, k: nat)
      requires Valid() && j < k < |log| && Live(log[j], resets) && Live(log[k], resets) && log[j].side == log[k].side
      ensures Apart(log[j], log[k])
    {
    }

    /** The caller fills a block through its handle. */
    method Fill(handle: nat, bytes: seq<byte>, ghost k: nat)
      requires Valid() && k < |log| && handle == HandleOf(log[k]) && Live(log[k], resets) && |bytes| == log[k].length
      requires bytes != []
      modifies this`sides
      ensures Valid() && Bytes(k) == bytes
      ensures forall j :: 0 <= j < |log| && j != k && Live(log[j], resets) ==> Bytes(j) == old(Bytes(j))
    {
      HandleLifetime(k);
      var place := Data(handle).value;
      var data := sides[place.side].data;
      sides := sides[place.side := sides[place.side].(data := data[..place.offset] + bytes
        + data[place.offset + |bytes|..])];
      forall j | 0 <= j < |log| && j != k && Live(log[j], resets)
        ensures Bytes(j) == old(Bytes(j))
      {
        HandleLifetime(j);
        if log[j].side == log[k].side {
          SpliceElsewhere(data, log[k], bytes, log[j]);
        }
      }
      hide Ledger, Generation, Pack, SideOf, GenerationOf, OffsetOf;
    }

    ghost function Bytes(k: nat): seq<byte>
      requires Valid() && k < |log| && Live(log[k], resets)
      reads this
    {
      var b := log[k];
      assert BlockOk(b, [sides[0].size, sides[1].size], resets, cur, total, max);
      sides[b.side].data[b.offset..b.offset + b.length]
    }
  }

  lemma SpliceElsewhere(data: seq<byte>, b: Block, bytes: seq<byte>, other: Block)
    requires |bytes| == b.length && b.offset + b.length <= |data| && other.offset + other.length <= |data|
    requires Apart(b, other)
    ensures (data[..b.offset] + bytes + data[b.offset + |bytes|..])[other.offset..other.offset + other.length]
         == data[other.offset..other.offset + other.length]
  {
    var after := data[..b.offset] + bytes + data[b.offset + |bytes|..];
    assert forall i :: other.offset <= i < other.offset + other.length ==> after[i] == data[i];
  }

  lemma LedgerShape(log: seq<Block>, sizes: seq<nat>, resets: seq<nat>, cur: nat, total: nat, max: nat)
    requires Ledger(log, sizes, resets, cur, total, max)
    ensures |sizes| == |resets| == 2 && cur < 2
  {
  }

  lemma NextGeneration(side: nat, resets: nat)
    ensures (Generation(side, resets) + 1) % GENERATIONS == Generation(side, resets + 1)
  {
  }

  lemma HandleParts(b: Block, max: nat)
    requires b.side < 2 && b.offset <= max < UINT32
    ensures SideOf(HandleOf(b)) == b.side + 1 && GenerationOf(HandleOf(b)) == Generation(b.side, b.resets)
    ensures OffsetOf(HandleOf(b)) == b.offset
  {
    Unpack(b.side + 1, Generation(b.side, b.resets), b.offset);
  }
}
