/**
 The internet checksum as libraries/net computes it: 32-bit little-endian words
 added up in 64 bits, chunk by chunk, and folded at the end.

 The reference is section 1 of RFC 1071: 16-bit words added with end-around carry.
 Both are the same number `Canon` of the total, the one in 0..0xFFFF that leaves
 the same remainder modulo 0xFFFF and is 0 only for 0.
 */
module Checksums {
  import opened Bytes

  const ONES: nat := 0xFFFF
  const UINT64: nat := UINT32 * UINT32

  /** The sum of the little-endian 16-bit words, an odd last byte padded with zero. */
  function Sum16(s: seq<byte>): nat {
    if |s| == 0 then 0
    else if |s| == 1 then s[0] as nat
    else s[0] as nat + 256 * s[1] as nat + Sum16(s[2..])
  }

  /** The same in network byte order. */
  function SumNetwork(s: seq<byte>): nat {
    if |s| == 0 then 0
    else if |s| == 1 then 256 * s[0] as nat
    else 256 * s[0] as nat + s[1] as nat + SumNetwork(s[2..])
  }

  function Word32(s: seq<byte>): nat
    requires |s| >= 4
  {
    s[0] as nat + 256 * s[1] as nat + 0x1_0000 * s[2] as nat + 0x100_0000 * s[3] as nat
  }

  /** What sum_words adds up. */
  function Sum32(s: seq<byte>): nat {
    if |s| < 4 then Sum16(s) else Word32(s) + Sum32(s[4..])
  }

  function Fold(x: nat): (r: nat)
    ensures r <= ONES
  {
    if x > ONES then Fold(x / 0x1_0000 + x % 0x1_0000) else x
  }

  function Canon(x: nat): (c: nat)
    ensures c <= ONES && (c == 0 <==> x == 0)
  {
    if x == 0 then 0 else (x - 1) % ONES + 1
  }

  /** Adding one word, with the carry brought around. */
  function CarryAdd(a: nat, w: nat): nat {
    (a + w) % 0x1_0000 + (a + w) / 0x1_0000
  }

  /** The end-around-carry sum, starting from `a`. */
  function CarrySum(a: nat, s: seq<byte>): nat
    decreases |s|
  {
    if |s| == 0 then a
    else if |s| == 1 then CarryAdd(a, s[0] as nat)
    else CarrySum(CarryAdd(a, s[0] as nat + 256 * s[1] as nat), s[2..])
  }

  function Swap16(x: nat): nat {
    x / 256 + 256 * (x % 256)
  }

  lemma Divide(x: nat) returns (q: nat, r: nat)
    requires x > 0
    ensures x == ONES * q + r && 1 <= r <= ONES && r == Canon(x)
  {
    q, r := (x - 1) / ONES, (x - 1) % ONES + 1;
  }

  /** There is one such number only. */
  lemma CanonUnique(y: nat, x: nat, t: int)
    requires 1 <= y <= ONES && x > 0 && y == x + ONES * t
    ensures y == Canon(x)
  {
    var q, r := Divide(x);
    assert y - r == ONES * (q + t);
  }

  lemma CanonSame(x: nat, y: nat, t: int)
    requires x > 0 && y > 0 && y == x + ONES * t
    ensures Canon(x) == Canon(y)
  {
    var q, r := Divide(y);
    assert r == x + ONES * (t - q);
    CanonUnique(r, x, t - q);
  }

  lemma {:induction false} FoldIsCanon(x: nat)
    ensures Fold(x) == Canon(x)
  {
    if x > ONES {
      var q, r := x / 0x1_0000, x % 0x1_0000;
      FoldIsCanon(q + r);
      CanonSame(q + r, x, q);
    }
  }

  lemma CarryAddIsCanon(x: nat, w: nat)
    requires w <= ONES
    ensures CarryAdd(Canon(x), w) == Canon(x + w)
  {
    var a := Canon(x);
    if a + w > 0 {
      var q := 0;
      if x > 0 {
        q, a := Divide(x);
      }
      var c := (a + w) / 0x1_0000;
      assert CarryAdd(a, w) == (a + w) - ONES * c;
      assert CarryAdd(a, w) == x + w + ONES * (-q - c);
      CanonUnique(CarryAdd(a, w), x + w, -q - c);
    }
  }

  lemma {:induction false} CarrySumIsCanon(x: nat, s: seq<byte>)
    ensures CarrySum(Canon(x), s) == Canon(x + Sum16(s))
    decreases |s|
  {
    hide Canon, CarryAdd;
    if |s| == 1 {
      CarryAddIsCanon(x, s[0] as nat);
    } else if |s| >= 2 {
      var w := s[0] as nat + 256 * s[1] as nat;
      CarryAddIsCanon(x, w);
      CarrySumIsCanon(x + w, s[2..]);
    }
  }

  /** What reading 32 bits at a time counts too much: the upper halves, 0xFFFF times. */
  function UpperHalves(s: seq<byte>): nat {
    if |s| < 4 then 0 else s[2] as nat + 256 * s[3] as nat + UpperHalves(s[4..])
  }

  lemma {:induction false} Sum32IsSum16(s: seq<byte>)
    ensures Sum32(s) == Sum16(s) + ONES * UpperHalves(s) && UpperHalves(s) <= Sum16(s)
  {
    if |s| >= 4 {
      Sum32IsSum16(s[4..]);
      assert s[2..][2..] == s[4..];
      assert Sum16(s) == s[0] as nat + 256 * s[1] as nat + (s[2] as nat + 256 * s[3] as nat) + Sum16(s[4..]);
    }
  }

  lemma {:induction false} Sum16Splits(a: seq<byte>, b: seq<byte>)
    requires |a| % 2 == 0
    ensures Sum16(a + b) == Sum16(a) + Sum16(b)
  {
    if a == [] {
      assert a + b == b;
    } else {
      assert (a + b)[2..] == a[2..] + b;
      Sum16Splits(a[2..], b);
    }
  }

  lemma CanonSum32(s: seq<byte>, x: nat)
    ensures Canon(x + Sum32(s)) == Canon(x + Sum16(s))
  {
    hide Sum16, Sum32, UpperHalves, Canon;
    Sum32IsSum16(s);
    if x + Sum16(s) > 0 {
      CanonSame(x + Sum16(s), x + Sum32(s), UpperHalves(s));
    }
  }

  /** Adding words of 32 bits and folding is adding words of 16 bits with end-around carry. */
  lemma FastSumIsCarrySum(s: seq<byte>)
    ensures Fold(Sum32(s)) == CarrySum(0, s)
  {
    hide Sum16, Sum32, CarrySum, Fold;
    FoldIsCanon(Sum32(s));
    CanonSum32(s, 0);
    CarrySumIsCanon(0, s);
  }

  /** Chunks may be summed apart, as long as all but the last have even length. */
  lemma ChunkedSum(a: seq<byte>, b: seq<byte>, c: seq<byte>)
    requires |a| % 2 == 0 && |b| % 2 == 0
    ensures Fold(Sum32(a) + Sum32(b) + Sum32(c)) == CarrySum(0, a + b + c)
  {
    hide *;
    assert Canon(0) == 0;
    FoldIsCanon(Sum32(a) + Sum32(b) + Sum32(c));
    CanonSum32(c, Sum32(a) + Sum32(b));
    CanonSum32(b, Sum32(a) + Sum16(c));
    CanonSum32(a, Sum16(b) + Sum16(c));
    Sum16Splits(a + b, c);
    Sum16Splits(a, b);
    CarrySumIsCanon(0, a + b + c);
  }

  lemma {:induction false} OddChunkShifts(a: seq<byte>, b: seq<byte>)
    requires |a| % 2 == 1
    ensures Sum16(a + b) == Sum16(a) + SumNetwork(b)
  {
    if |a| > 1 {
      assert (a + b)[2..] == a[2..] + b;
      OddChunkShifts(a[2..], b);
    } else {
      ShiftedSum(a[0], b);
      assert a + b == [a[0]] + b;
    }
  }

  lemma {:induction false} ShiftedSum(x: byte, b: seq<byte>)
    ensures Sum16([x] + b) == x as nat + SumNetwork(b)
    decreases |b|
  {
    if |b| >= 1 {
      assert ([x] + b)[2..] == b[1..];
      if |b| >= 2 {
        ShiftedSum(b[1], b[2..]);
        assert [b[1]] + b[2..] == b[1..];
      }
    }
  }

  lemma CanonMod(x: nat)
    requires x > 0
    ensures x % ONES == if Canon(x) == ONES then 0 else Canon(x)
  {
    var q, r := Divide(x);
  }

  lemma CanonEqual(x: nat, y: nat)
    requires x > 0 <==> y > 0
    ensures Canon(x) == Canon(y) <==> x % ONES == y % ONES
  {
    hide Canon;
    if x > 0 {
      CanonMod(x);
      CanonMod(y);
    }
  }

  lemma ModCancel(a: nat, x: nat, y: nat)
    ensures (a + x) % ONES == (a + y) % ONES <==> x % ONES == y % ONES
  {
  }

  /** Byte order does not matter to a sum exactly if it is a multiple of 257. */
  lemma OrderMatters(b: seq<byte>)
    ensures Sum16(b) % ONES == SumNetwork(b) % ONES <==> Sum16(b) % 257 == 0
  {
    NetworkSum(b);
    hide Sum16, SumNetwork, SecondBytes;
    SameRemainder(Sum16(b), SumNetwork(b));
    if Sum16(b) % 257 == 0 {
      SumFits(Sum16(b), SumNetwork(b), SecondBytes(b), Sum16(b) / 257);
    }
    if (SumNetwork(b) - Sum16(b)) % ONES == 0 {
      SumDivides(Sum16(b), SumNetwork(b), SecondBytes(b), (SumNetwork(b) - Sum16(b)) / ONES);
    }
  }

  lemma SumFits(x: nat, y: nat, k: nat, m: nat)
    requires y + ONES * k == 256 * x && x == 257 * m
    ensures (y - x) % ONES == 0
  {
    var z := m as int - k;
    assert y - x == ONES * z;
    NoRemainder(z);
  }

  lemma NoRemainder(z: int)
    ensures ONES * z % ONES == 0
  {
  }

  lemma SumDivides(x: nat, y: nat, k: nat, t: int)
    requires y + ONES * k == 256 * x && y - x == ONES * t
    ensures x % 257 == 0
  {
    assert x == 257 * (t + k);
  }

  lemma SameRemainder(x: nat, y: nat)
    ensures x % ONES == y % ONES <==> (y - x) % ONES == 0
  {
  }

  /** An odd chunk before another one comes out right exactly if the sum of the second is a multiple of 257. */
  lemma OddChunkExactly(p: seq<byte>, a: seq<byte>, b: seq<byte>)
    requires |p| % 2 == 0 && |a| % 2 == 1
    ensures Fold(Sum32(p) + Sum32(a) + Sum32(b)) == CarrySum(0, p + a + b) <==> Sum16(b) % 257 == 0
  {
    hide *;
    assert Canon(0) == 0;
    FoldIsCanon(Sum32(p) + Sum32(a) + Sum32(b));
    CanonSum32(b, Sum32(p) + Sum32(a));
    CanonSum32(a, Sum32(p) + Sum16(b));
    CanonSum32(p, Sum16(a) + Sum16(b));
    CarrySumIsCanon(0, p + a + b);
    OddChunkShifts(p + a, b);
    Sum16Splits(p, a);
    NetworkPositive(b);
    CanonEqual(Sum16(p) + Sum16(a) + Sum16(b), Sum16(p) + Sum16(a) + SumNetwork(b));
    ModCancel(Sum16(p) + Sum16(a), Sum16(b), SumNetwork(b));
    OrderMatters(b);
  }

  function SecondBytes(s: seq<byte>): nat {
    if |s| < 2 then 0 else s[1] as nat + SecondBytes(s[2..])
  }

  lemma {:induction false} NetworkSum(s: seq<byte>)
    ensures SumNetwork(s) + ONES * SecondBytes(s) == 256 * Sum16(s)
  {
    if |s| >= 2 {
      NetworkSum(s[2..]);
    }
  }

  lemma SwapTimes256(c: nat)
    ensures Swap16(c) + ONES * (c / 256) == 256 * c
    ensures 1 <= c <= ONES ==> 1 <= Swap16(c) <= ONES
  {
  }

  /** Swapping the bytes of the little-endian sum gives the sum in network byte order. */
  lemma SwappedSum(s: seq<byte>)
    ensures Swap16(Fold(Sum32(s))) == Canon(SumNetwork(s))
  {
    hide Sum16, Sum32, SumNetwork, SecondBytes, Fold;
    FoldIsCanon(Sum32(s));
    CanonSum32(s, 0);
    NetworkSum(s);
    if Sum16(s) > 0 {
      var m, c := Divide(Sum16(s));
      SwapTimes256(c);
      var t := SecondBytes(s) - 256 * m - c / 256;
      assert Swap16(c) == SumNetwork(s) + ONES * t;
      NetworkPositive(s);
      CanonUnique(Swap16(c), SumNetwork(s), t);
    } else {
      NetworkPositive(s);
    }
  }

  lemma {:induction false} NetworkPositive(s: seq<byte>)
    ensures SumNetwork(s) > 0 <==> Sum16(s) > 0
  {
    if |s| >= 2 {
      NetworkPositive(s[2..]);
    }
  }

  /** With the checksum in its field, everything sums to ones. */
  lemma ChecksumVerifies(x: nat)
    ensures Fold(x + (ONES - Fold(x))) == ONES
  {
    hide Fold, Canon;
    FoldIsCanon(x);
    FoldIsCanon(x + (ONES - Fold(x)));
    var t: int := 0;
    if x > 0 {
      var q, r := Divide(x);
      t := t - q;
    }
    CanonUnique(ONES, x + (ONES - Canon(x)), t);
  }

  lemma SwapComplement(c: nat)
    requires c <= ONES
    ensures Swap16(ONES - c) == ONES - Swap16(c)
  {
  }

  lemma {:induction false} Sum32Bound(s: seq<byte>)
    ensures Sum32(s) <= (|s| / 4 + 1) * UINT32
  {
    if |s| >= 4 {
      Sum32Bound(s[4..]);
    } else if |s| >= 2 {
      assert Sum16(s) == s[0] as nat + 256 * s[1] as nat + Sum16(s[2..]);
    }
  }

  lemma SmallSum(s: seq<byte>)
    requires |s| < 4
    ensures Sum32(s) ==
      (if |s| >= 2 then s[0] as nat + 256 * s[1] as nat else 0) + if |s| % 2 == 1 then s[|s| - 1] as nat else 0
  {
    if |s| >= 2 {
      assert Sum16(s) == s[0] as nat + 256 * s[1] as nat + Sum16(s[2..]);
    }
  }

  /** sum_words; sums of a few such chunks are far from overflowing 64 bits. */
  method SumWords(data: seq<byte>) returns (sum: nat)
    requires |data| < UINT32
    ensures sum == Sum32(data) <= (|data| / 4 + 1) * UINT32
  {
    Sum32Bound(data);
    sum := 0;
    var pos, length := 0, |data|;
    assert data[0..] == data;
    while length >= 4
      invariant 0 <= pos <= |data| && length == |data| - pos && sum + Sum32(data[pos..]) == Sum32(data)
    {
      assert data[pos..][4..] == data[pos + 4..];
      sum := sum + (data[pos] as nat + 256 * data[pos + 1] as nat + 0x1_0000 * data[pos + 2] as nat
        + 0x100_0000 * data[pos + 3] as nat);
      pos, length := pos + 4, length - 4;
    }
    SmallSum(data[pos..]);
    if length >= 2 {
      sum := sum + (data[pos] as nat + 256 * data[pos + 1] as nat);
      pos, length := pos + 2, length - 2;
    }
    if length > 0 {
      sum := sum + Swap16(data[pos] as nat * 256);
      length := length - 1;
    }
  }

  /** The folding loop, on a 64-bit sum. */
  method FoldSum(total: nat) returns (sum: nat)
    requires total < UINT64
    ensures sum == Fold(total)
  {
    sum := total;
    while sum > ONES
      invariant Fold(sum) == Fold(total)
    {
      sum := sum / 0x1_0000 + sum % 0x1_0000;
    }
  }

  lemma ReferenceChecksum(s: seq<byte>)
    ensures CarrySum(0, s) == Fold(Sum32(s))
    ensures Swap16(ONES - CarrySum(0, s)) == ONES - Canon(SumNetwork(s))
  {
    FastSumIsCarrySum(s);
    SwappedSum(s);
    SwapComplement(CarrySum(0, s));
  }

  /**
   The header checksum: the complement of the reference sum of header and options,
   and with its bytes swapped the complement of the sum in network byte order.
   */
  method HeaderChecksum(header: seq<byte>, options: seq<byte>) returns (c: nat)
    requires |header| == 20 && |options| < UINT32
    ensures c == ONES - CarrySum(0, header + options)
    ensures Swap16(c) == ONES - Canon(SumNetwork(header + options))
  {
    hide Sum32, Fold, CarrySum, Canon, SumNetwork, Swap16;
    var sum := SumWords(header);
    var more := SumWords(options);
    ChunkedSum(header, [], options);
    assert Sum32([]) == 0 by { EmptySum(); }
    assert header + [] + options == header + options;
    ReferenceChecksum(header + options);
    assert sum + more < UINT64;
    sum := FoldSum(sum + more);
    c := ONES - sum;
  }

  lemma EmptySum()
    ensures Sum32([]) == 0
  {
  }

  /** Two and four bytes in network byte order. */
  function Read16(s: seq<byte>, i: nat): nat
    requires i + 2 <= |s|
  {
    256 * s[i] as nat + s[i + 1] as nat
  }

  function Read32(s: seq<byte>, i: nat): nat
    requires i + 4 <= |s|
  {
    0x1_0000 * Read16(s, i) + Read16(s, i + 2)
  }

  function Network16(x: nat): (s: seq<byte>)
    ensures |s| == 2 && Read16(s, 0) == x % 0x1_0000
  {
    [(x / 256 % 256) as byte, (x % 256) as byte]
  }

  function Network32(x: nat): (s: seq<byte>)
    ensures |s| == 4 && (x < UINT32 ==> Read32(s, 0) == x)
  {
    Network16(x / 0x1_0000) + Network16(x)
  }

  /** The pseudo header of section 3.1 of RFC 793; the length is truncated to 16 bits. */
  function PseudoHeader(source: nat, dest: nat, protocol: byte, length: nat): (s: seq<byte>)
    ensures |s| == 12
    ensures source < UINT32 ==> Read32(s, 0) == source
    ensures dest < UINT32 ==> Read32(s, 4) == dest
    ensures s[8] == 0 && s[9] == protocol && Read16(s, 10) == length % 0x1_0000
  {
    Network32(source) + Network32(dest) + [0, protocol] + Network16(length)
  }

  /**
   The TCP checksum over a header and the payload. Callers pass a header of even length; after
   an odd one it is right exactly if the sum of the payload is a multiple of 257.
   */
  method TcpChecksum(source: nat, dest: nat, protocol: byte, data1: seq<byte>, data2: seq<byte>) returns (c: nat)
    requires |data1| < UINT32 && |data2| < UINT32
    ensures c ==
      ONES - Fold(Sum32(PseudoHeader(source, dest, protocol, |data1| + |data2|)) + Sum32(data1) + Sum32(data2))
    ensures |data1| % 2 == 0 ==>
      var all := PseudoHeader(source, dest, protocol, |data1| + |data2|) + data1 + data2;
      c == ONES - CarrySum(0, all) && Swap16(c) == ONES - Canon(SumNetwork(all))
    ensures |data1| % 2 == 1 ==>
      var all := PseudoHeader(source, dest, protocol, |data1| + |data2|) + data1 + data2;
      c == ONES - CarrySum(0, all) <==> Sum16(data2) % 257 == 0
  {
    hide Sum32, Sum16, Fold, CarrySum, Canon, SumNetwork, Swap16, PseudoHeader;
    var pseudo := PseudoHeader(source, dest, protocol, |data1| + |data2|);
    var sum0 := SumWords(pseudo);
    var sum1 := SumWords(data1);
    var sum2 := SumWords(data2);
    if |data1| % 2 == 0 {
      ChunkedSum(pseudo, data1, data2);
      ReferenceChecksum(pseudo + data1 + data2);
    } else {
      OddChunkExactly(pseudo, data1, data2);
    }
    assert sum0 + sum1 + sum2 < UINT64;
    var sum := FoldSum(sum0 + sum1 + sum2);
    c := ONES - sum;
  }
}
