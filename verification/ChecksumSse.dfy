// The vector checksum: 16-byte registers of four 32-bit lanes, byte shuffles and lane adds.
module ChecksumSse {
  import opened Arith
  import opened Checksum

  // A 128-bit register as bytes, and as unsigned 32-bit lanes.
  type Reg = r: seq<Byte> | |r| == 16 witness seq(16, _ => 0)
  type Lane = x: int | 0 <= x < TWO32
  datatype Lanes = Lanes(l0: Lane, l1: Lane, l2: Lane, l3: Lane)

  const ZERO := Lanes(0, 0, 0, 0)

  // crc_xmm_shift_tab: sixteen 0xff, the bytes 0 to 15, sixteen 0xff.
  function ShiftTab(i: nat): Byte
    requires i < 48
  {
    if 16 <= i < 32 then i - 16 else 0xFF
  }

  // _mm_shuffle_epi8: a mask byte with its top bit set clears, any other selects.
  function Shuffle(reg: Reg, mask: Reg): Reg {
    seq<Byte>(16, i requires 0 <= i < 16 => if mask[i] >= 0x80 then 0 else reg[mask[i] % 16])
  }

  // Sixteen table bytes as a shuffle mask.
  function Mask(start: nat): (m: seq<Byte>)
    requires start <= 32
    ensures |m| == 16 && forall i :: 0 <= i < 16 ==> m[i] == ShiftTab(start + i)
  {
    seq<Byte>(16, i requires 0 <= i < 16 => ShiftTab(start + i))
  }

  function ShiftRight(reg: Reg, num: nat): Reg
    requires num <= 16
  {
    Shuffle(reg, Mask(16 + num))
  }

  function ShiftLeft(reg: Reg, num: nat): Reg
    requires num <= 16
  {
    Shuffle(reg, Mask(16 - num))
  }

  const SWAP16A: Reg := [0x01, 0x00, 0xFF, 0xFF, 0x03, 0x02, 0xFF, 0xFF, 0x05, 0x04, 0xFF, 0xFF, 0x07, 0x06, 0xFF, 0xFF]
  const SWAP16B: Reg := [0x09, 0x08, 0xFF, 0xFF, 0x0B, 0x0A, 0xFF, 0xFF, 0x0D, 0x0C, 0xFF, 0xFF, 0x0F, 0x0E, 0xFF, 0xFF]

  function LaneOf(b0: Byte, b1: Byte, b2: Byte, b3: Byte): Lane {
    var x0: int, x1: int, x2: int, x3: int := b0, b1, b2, b3;
    x0 + 0x100 * x1 + 0x1_0000 * x2 + 0x100_0000 * x3
  }

  function AsLanes(r: Reg): Lanes {
    Lanes(LaneOf(r[0], r[1], r[2], r[3]), LaneOf(r[4], r[5], r[6], r[7]),
          LaneOf(r[8], r[9], r[10], r[11]), LaneOf(r[12], r[13], r[14], r[15]))
  }

  // _mm_add_epi32
  function Add(a: Lanes, b: Lanes): Lanes {
    Lanes((a.l0 + b.l0) % TWO32, (a.l1 + b.l1) % TWO32, (a.l2 + b.l2) % TWO32, (a.l3 + b.l3) % TWO32)
  }

  // _mm_hadd_epi32
  function HAdd(a: Lanes, b: Lanes): Lanes {
    Lanes((a.l0 + a.l1) % TWO32, (a.l2 + a.l3) % TWO32, (b.l0 + b.l1) % TWO32, (b.l2 + b.l3) % TWO32)
  }

  function Total(a: Lanes): nat { a.l0 + a.l1 + a.l2 + a.l3 }

  // What a 32-bit add of x drops, in units of 2^32.
  ghost function Dropped(x: int): int { x / TWO32 }

  lemma DropIsExact(x: int)
    ensures x == x % TWO32 + TWO32 * Dropped(x)
  {
  }

  ghost function Carry(a: Lanes, b: Lanes): int {
    Dropped(a.l0 + b.l0) + Dropped(a.l1 + b.l1) + Dropped(a.l2 + b.l2) + Dropped(a.l3 + b.l3)
  }

  lemma TotalAdd(a: Lanes, b: Lanes)
    ensures Total(Add(a, b)) + TWO32 * Carry(a, b) == Total(a) + Total(b)
  {
    DropIsExact(a.l0 + b.l0);
    DropIsExact(a.l1 + b.l1);
    DropIsExact(a.l2 + b.l2);
    DropIsExact(a.l3 + b.l3);
  }

  // The two swaps of one register give its eight words in network order, one per lane.
  lemma SwapsSumBlock(r: Reg)
    ensures Total(AsLanes(Shuffle(r, SWAP16A))) + Total(AsLanes(Shuffle(r, SWAP16B))) == NetSum(r)
  {
    var a, b := Shuffle(r, SWAP16A), Shuffle(r, SWAP16B);
    assert AsLanes(a) == Lanes(HostWord(r[1], r[0]), HostWord(r[3], r[2]), HostWord(r[5], r[4]), HostWord(r[7], r[6]));
    assert AsLanes(b) == Lanes(HostWord(r[9], r[8]), HostWord(r[11], r[10]), HostWord(r[13], r[12]), HostWord(r[15], r[14]));
    NetSumUnrolled(r);
  }

  lemma NetSumUnrolled(r: Reg)
    ensures NetSum(r) == HostWord(r[1], r[0]) + HostWord(r[3], r[2]) + HostWord(r[5], r[4]) + HostWord(r[7], r[6])
                         + HostWord(r[9], r[8]) + HostWord(r[11], r[10]) + HostWord(r[13], r[12]) + HostWord(r[15], r[14])
  {
    NetSumNext(r, 0);
    NetSumNext(r, 2);
    NetSumNext(r, 4);
    NetSumNext(r, 6);
    NetSumNext(r, 8);
    NetSumNext(r, 10);
    NetSumNext(r, 12);
    NetSumNext(r, 14);
    assert r[0..] == r && r[16..] == [];
  }

  lemma NetSumNext(r: seq<Byte>, i: nat)
    requires i + 2 <= |r|
    ensures NetSum(r[i..]) == HostWord(r[i + 1], r[i]) + NetSum(r[i + 2..])
  {
    assert r[i..][2..] == r[i + 2..];
  }

  // Shifting left and back right keeps the first 16 - num bytes and clears the others,
  // whatever was loaded there.
  lemma ShiftsMask(reg: Reg, num: nat)
    requires num <= 16
    ensures ShiftRight(ShiftLeft(reg, num), num) == reg[..16 - num] + seq(num, _ => 0)
  {
    var l, m, r := ShiftLeft(reg, num), Mask(16 - num), Mask(16 + num);
    forall i | num <= i < 16 ensures l[i] == reg[i - num] {
      assert m[i] == i - num;
    }
    forall i | 0 <= i < 16
      ensures ShiftRight(l, num)[i] == if i < 16 - num then reg[i] else 0
    {
      assert r[i] == if i < 16 - num then i + num else 0xFF;
    }
  }

  lemma {:induction false} NetSumPadded(b: seq<Byte>, n: nat)
    ensures NetSum(b + seq(n, _ => 0)) == NetSum(b)
    decreases |b|, n
  {
    var c := b + seq(n, _ => 0);
    if |b| >= 2 {
      assert c[2..] == b[2..] + seq(n, _ => 0);
      NetSumPadded(b[2..], n);
    } else if |b| == 1 {
      if n > 0 {
        assert c[2..] == [] + seq(n - 1, _ => 0);
        NetSumPadded([], n - 1);
      } else {
        assert c == b;
      }
    } else if n >= 2 {
      assert c[2..] == [] + seq(n - 2, _ => 0);
      NetSumPadded([], n - 2);
    }
  }

  // Adds one register to both accumulators; lost counts the multiples of 2^32 dropped.
  method Accumulate(block: Reg, sum32a: Lanes, sum32b: Lanes)
    returns (a: Lanes, b: Lanes, ghost lost: int)
    ensures Total(a) + Total(b) + TWO32 * lost == Total(sum32a) + Total(sum32b) + NetSum(block)
  {
    var x, y := AsLanes(Shuffle(block, SWAP16A)), AsLanes(Shuffle(block, SWAP16B));
    a := Add(sum32a, x);
    b := Add(sum32b, y);
    lost := Carry(sum32a, x) + Carry(sum32b, y);
    SwapsSumBlock(block);
    TotalAdd(sum32a, x);
    TotalAdd(sum32b, y);
  }

  // The invariant of both loops: the accumulators hold the sum of what precedes n.
  ghost predicate LanesHold(a: Lanes, b: Lanes, data: seq<Byte>, n: nat, lost: int)
    requires n <= |data|
  {
    Total(a) + Total(b) + TWO32 * lost == NetSum(data[..n])
  }

  lemma NetSumNextBlock(data: seq<Byte>, q: nat, m: nat)
    requires 16 * q <= m <= |data|
    ensures NetSum(data[..m]) == NetSum(data[..16 * q]) + NetSum(data[16 * q..m])
  {
    ModUnique(16 * q, 2, 8 * q, 0);
    NetSumSplit(data[..m], 16 * q);
    assert data[..m][..16 * q] == data[..16 * q] && data[..m][16 * q..] == data[16 * q..m];
  }

  method AccumulateAt(mem: seq<Byte>, n: nat, ghost q: nat, sum32a: Lanes, sum32b: Lanes, ghost lost0: int)
    returns (a: Lanes, b: Lanes, ghost lost: int)
    requires n == 16 * q && n + 16 <= |mem| && LanesHold(sum32a, sum32b, mem, n, lost0)
    ensures LanesHold(a, b, mem, n + 16, lost)
  {
    NetSumNextBlock(mem, q, n + 16);
    a, b, lost := Accumulate(mem[n..n + 16], sum32a, sum32b);
    lost := lost + lost0;
  }

  lemma MaskedSum(mem: seq<Byte>, n: nat, rest: nat)
    requires rest <= 16 && n + 16 <= |mem|
    ensures NetSum(ShiftRight(ShiftLeft(mem[n..n + 16], 16 - rest), 16 - rest)) == NetSum(mem[n..n + rest])
  {
    ShiftsMask(mem[n..n + 16], 16 - rest);
    assert mem[n..n + 16][..rest] == mem[n..n + rest];
    NetSumPadded(mem[n..n + rest], 16 - rest);
  }

  // The last load, masked down to the rest bytes that belong to the buffer.
  method AccumulateTail(mem: seq<Byte>, n: nat, rest: nat, ghost q: nat, sum32a: Lanes, sum32b: Lanes,
                        ghost lost0: int)
    returns (a: Lanes, b: Lanes, ghost lost: int)
    requires 0 < rest < 16 && n == 16 * q && n + 16 <= |mem| && LanesHold(sum32a, sum32b, mem, n, lost0)
    ensures LanesHold(a, b, mem, n + rest, lost)
  {
    var dblock: Reg := mem[n..n + 16];
    dblock := ShiftLeft(dblock, 16 - rest);
    dblock := ShiftRight(dblock, 16 - rest);
    MaskedSum(mem, n, rest);
    NetSumNextBlock(mem, q, n + rest);
    a, b, lost := Accumulate(dblock, sum32a, sum32b);
    lost := lost + lost0;
  }

  // The body of the 64-byte loop.
  method FourBlocks(mem: seq<Byte>, n: nat, ghost q: nat, sum32a: Lanes, sum32b: Lanes, ghost lost0: int)
    returns (a: Lanes, b: Lanes, ghost lost: int)
    requires n == 16 * q && n + 64 <= |mem| && LanesHold(sum32a, sum32b, mem, n, lost0)
    ensures LanesHold(a, b, mem, n + 64, lost)
  {
    a, b, lost := AccumulateAt(mem, n, q, sum32a, sum32b, lost0);
    a, b, lost := AccumulateAt(mem, n + 16, q + 1, a, b, lost);
    a, b, lost := AccumulateAt(mem, n + 32, q + 2, a, b, lost);
    a, b, lost := AccumulateAt(mem, n + 48, q + 3, a, b, lost);
  }

  lemma HAddLanes(a: Lanes)
    ensures HAdd(a, ZERO).l0 + TWO32 * Dropped(a.l0 + a.l1) == a.l0 + a.l1
    ensures HAdd(a, ZERO).l1 + TWO32 * Dropped(a.l2 + a.l3) == a.l2 + a.l3
  {
    DropIsExact(a.l0 + a.l1);
    DropIsExact(a.l2 + a.l3);
  }

  lemma LanesCollapse(sum: int, h0: int, h1: int, s: Lanes, total: int, c: int, d0: int, d1: int, d2: int)
    requires Total(s) + TWO32 * c == total
    requires h0 + TWO32 * d0 == s.l0 + s.l1 && h1 + TWO32 * d1 == s.l2 + s.l3
    requires sum + TWO32 * d2 == h0 + h1
    ensures sum + TWO32 * (c + d0 + d1 + d2) == total
  {
  }

  // The two accumulators into one lane: two horizontal adds.
  method Aggregate(sum32a: Lanes, sum32b: Lanes) returns (sum: Lane, ghost lost: int)
    ensures sum + TWO32 * lost == Total(sum32a) + Total(sum32b)
  {
    var s := HAdd(Add(sum32a, sum32b), ZERO);
    sum := HAdd(s, ZERO).l0;
    lost := AggregateLost(sum32a, sum32b);
  }

  lemma AggregateLost(sum32a: Lanes, sum32b: Lanes) returns (lost: int)
    ensures HAdd(HAdd(Add(sum32a, sum32b), ZERO), ZERO).l0 + TWO32 * lost == Total(sum32a) + Total(sum32b)
  {
    var s := Add(sum32a, sum32b);
    var h := HAdd(s, ZERO);
    TotalAdd(sum32a, sum32b);
    HAddLanes(s);
    HAddLanes(h);
    var c, d0, d1, d2 := Carry(sum32a, sum32b), Dropped(s.l0 + s.l1), Dropped(s.l2 + s.l3), Dropped(h.l0 + h.l1);
    LanesCollapse(HAdd(h, ZERO).l0, h.l0, h.l1, s, Total(sum32a) + Total(sum32b), c, d0, d1, d2);
    lost := c + d0 + d1 + d2;
  }

  // csum_oc16_sse. mem is what lies at the data pointer: the last load may read past
  // dataLen, so the bytes there are arbitrary. The result is the network-order word sum.
  method CsumOc16Sse(mem: seq<Byte>, dataLen: nat) returns (sum: nat)
    requires dataLen + 15 <= |mem|
    ensures sum == NetSum(mem[..dataLen]) % TWO32
    ensures dataLen <= 0x2_0000 ==> sum == NetSum(mem[..dataLen])
  {
    var n: nat := 0;
    var sum32a, sum32b := ZERO, ZERO;
    ghost var lost, q := 0, 0;
    while n + 64 <= dataLen
      invariant n == 16 * q <= dataLen && LanesHold(sum32a, sum32b, mem, n, lost)
    {
      sum32a, sum32b, lost := FourBlocks(mem, n, q, sum32a, sum32b, lost);
      n, q := n + 64, q + 4;
    }
    while n + 16 <= dataLen
      invariant n == 16 * q <= dataLen && LanesHold(sum32a, sum32b, mem, n, lost)
    {
      sum32a, sum32b, lost := AccumulateAt(mem, n, q, sum32a, sum32b, lost);
      n, q := n + 16, q + 1;
    }
    if n != dataLen {
      ModUnique(dataLen, 16, q, dataLen - n);
      sum32a, sum32b, lost := AccumulateTail(mem, n, dataLen % 16, q, sum32a, sum32b, lost);
    }
    ghost var last;
    sum, last := Aggregate(sum32a, sum32b);
    NetSumResult(mem[..dataLen], lost + last, sum);
  }

  lemma NetSumResult(b: seq<Byte>, lost: int, sum: Lane)
    requires sum + TWO32 * lost == NetSum(b)
    ensures sum == NetSum(b) % TWO32
    ensures |b| <= 0x2_0000 ==> sum == NetSum(b)
  {
    ModUnique(NetSum(b), TWO32, lost, sum);
    NetSumBound(b);
  }

  lemma {:induction false} NetSumBound(b: seq<Byte>)
    ensures 2 * NetSum(b) <= ONES * (|b| + 1)
    decreases |b|
  {
    if |b| > 1 {
      NetSumBound(b[2..]);
    }
  }

  // IPChecksumSSE, and its promise: the byte swap of ekaCsum over the same bytes.
  method IpChecksumSse(mem: seq<Byte>, dataLen: nat) returns (r: Word16)
    requires dataLen + 15 <= |mem|
    ensures dataLen == 0 ==> r == ONES
    ensures 0 < dataLen <= 0x2_0000 ==> r == Swap16(ONES - Fold(WordSum(mem[..dataLen])))
  {
    if dataLen == 0 {
      return ONES;
    }
    var sum := CsumOc16Sse(mem, dataLen);
    r := FoldPseudoCsum(sum);
    ByteOrderIndependence(mem[..dataLen]);
    SwapComplement(Fold(WordSum(mem[..dataLen])));
  }
}
