// The descriptor that heads a write-combining copy, and what the FPGA makes of a window: it
// takes nBytes from behind the descriptor to the heap address, and, for a send, transmits
// size of them as the given action.
module WcDescriptor {
  import opened Arith
  import opened Bytes
  import opened Checksum
  import opened EpmRegion

  const WINDOW := 0x800     // the window of one channel
  const PAYLOAD := 64       // where the payload starts in it
  const DONT_SEND := 2
  const SEND := 1

  // epm_trig_desc_t and the fields behind it: 32, 16, 11, 5, 12, 32 and 2 bits.
  datatype Desc = Desc(tcpCs: nat, actionIdx: nat, size: nat, region: nat, nBytes: nat, hwHeapAddr: nat, opc: nat)

  predicate InBits(d: Desc) {
    && d.tcpCs < TWO32 && d.actionIdx < 0x1_0000 && d.size < 0x800 && d.region < 0x20
    && d.nBytes < 0x1000 && d.hwHeapAddr < TWO32 && d.opc < 4
  }

  // epmCopyWcDesc, with the cuts its bit fields make.
  function MakeDesc(tcpCs: nat, actionIdx: nat, pktSize: nat, region: nat, hwHeapAddr: nat, opc: nat): (d: Desc)
    ensures InBits(d)
  {
    Desc(tcpCs % TWO32, actionIdx % 0x1_0000, pktSize % 0x1_0000 % 0x800, region % 0x20,
         RoundUp64(pktSize) % 0x1000, hwHeapAddr % TWO32, opc % 4)
  }

  // The two words as they lie in the window.
  function TriggerWord(d: Desc): nat
    requires InBits(d)
  {
    d.tcpCs + TWO32 * (d.actionIdx + 0x1_0000 * (d.size + 0x800 * d.region))
  }

  function CopyWord(d: Desc): nat
    requires InBits(d)
  {
    d.nBytes + 0x1000 * (d.hwHeapAddr + TWO32 * d.opc)
  }

  // n bytes of a value, lowest first, and back.
  function LittleEndian(w: nat, n: nat): (b: seq<Byte>)
    ensures |b| == n
  {
    if n == 0 then [] else [w % 0x100] + LittleEndian(w / 0x100, n - 1)
  }

  function ValueOf(b: seq<Byte>): nat {
    if b == [] then 0 else b[0] + 0x100 * ValueOf(b[1..])
  }

  function DescBytes(d: Desc): (b: seq<Byte>)
    requires InBits(d)
    ensures |b| == 16
  {
    LittleEndian(TriggerWord(d), 8) + LittleEndian(CopyWord(d), 8)
  }

  // The FPGA's reading.
  function ReadDesc(b: seq<Byte>): Desc
    requires |b| == 16
  {
    var t, c := ValueOf(b[..8]), ValueOf(b[8..]);
    Desc(t % TWO32, t / TWO32 % 0x1_0000, t / TWO32 / 0x1_0000 % 0x800, t / TWO32 / 0x1_0000 / 0x800 % 0x20,
         c % 0x1000, c / 0x1000 % TWO32, c / 0x1000 / TWO32 % 4)
  }

  function Limit(n: nat): nat { if n == 0 then 1 else 0x100 * Limit(n - 1) }

  lemma {:induction false} LittleEndianRoundTrip(w: nat, n: nat)
    requires w < Limit(n)
    ensures ValueOf(LittleEndian(w, n)) == w
    decreases n
  {
    if n > 0 {
      LittleEndianRoundTrip(w / 0x100, n - 1);
      assert LittleEndian(w, n)[1..] == LittleEndian(w / 0x100, n - 1);
    }
  }

  // A value below m with a rest on top of it comes apart again.
  lemma TakeApart(x: nat, y: nat, m: nat)
    requires x < m
    ensures (x + m * y) % m == x && (x + m * y) / m == y
  {
    ModUnique(x + m * y, m, y, x);
  }

  lemma TriggerFields(d: Desc)
    requires InBits(d)
    ensures var t := TriggerWord(d);
            && t < 0x1_0000_0000_0000_0000 && t % TWO32 == d.tcpCs && t / TWO32 % 0x1_0000 == d.actionIdx
            && t / TWO32 / 0x1_0000 % 0x800 == d.size && t / TWO32 / 0x1_0000 / 0x800 % 0x20 == d.region
  {
    var upper := d.size + 0x800 * d.region;
    var middle := d.actionIdx + 0x1_0000 * upper;
    TakeApart(d.tcpCs, middle, TWO32);
    TakeApart(d.actionIdx, upper, 0x1_0000);
    TakeApart(d.size, d.region, 0x800);
  }

  lemma CopyFields(d: Desc)
    requires InBits(d)
    ensures var c := CopyWord(d);
            && c < 0x1_0000_0000_0000_0000 && c % 0x1000 == d.nBytes
            && c / 0x1000 % TWO32 == d.hwHeapAddr && c / 0x1000 / TWO32 % 4 == d.opc
  {
    var upper := d.hwHeapAddr + TWO32 * d.opc;
    TakeApart(d.nBytes, upper, 0x1000);
    TakeApart(d.hwHeapAddr, d.opc, TWO32);
  }

  lemma EightBytes()
    ensures Limit(8) == 0x1_0000_0000_0000_0000
  {
    assert Limit(4) == TWO32;
  }

  // What the FPGA reads is what was written.
  lemma DescRoundTrip(d: Desc)
    requires InBits(d)
    ensures ReadDesc(DescBytes(d)) == d
  {
    TriggerFields(d);
    CopyFields(d);
    EightBytes();
    LittleEndianRoundTrip(TriggerWord(d), 8);
    LittleEndianRoundTrip(CopyWord(d), 8);
    assert DescBytes(d)[..8] == LittleEndian(TriggerWord(d), 8) && DescBytes(d)[8..] == LittleEndian(CopyWord(d), 8);
  }

  // The lower k bytes of a value, and the rest of it.
  lemma {:induction false} LittleEndianSplit(x: nat, y: nat, k: nat, n: nat)
    requires x < Limit(k)
    ensures LittleEndian(x + Limit(k) * y, k + n) == LittleEndian(x, k) + LittleEndian(y, n)
    decreases k
  {
    if k > 0 {
      var z := x / 0x100 + Limit(k - 1) * y;
      assert Limit(k) * y == 0x100 * (Limit(k - 1) * y);
      ModUnique(x + Limit(k) * y, 0x100, z, x % 0x100);
      LittleEndianSplit(x / 0x100, y, k - 1, n);
    }
  }

  lemma LittleEndianPair(w: nat)
    requires w < 0x1_0000
    ensures LittleEndian(w, 2) == [w % 0x100, w / 0x100]
  {
    assert LittleEndian(w / 0x100, 1) == [w / 0x100 % 0x100] + LittleEndian(w / 0x100 / 0x100, 0);
  }

  lemma SmallLimits()
    ensures Limit(1) == 0x100 && Limit(2) == 0x1_0000 && Limit(4) == 0x1_0000_0000
  {
    assert Limit(0) == 1 && Limit(1) == 0x100 && Limit(3) == 0x100_0000;
  }

  lemma TwoParts(x: nat, y: nat, m: nat, k: nat, n: nat)
    requires m == Limit(k) && x < m
    ensures LittleEndian(x + m * y, k + n) == LittleEndian(x, k) + LittleEndian(y, n)
  {
    LittleEndianSplit(x, y, k, n);
  }

  lemma TriggerBytes(d: Desc)
    requires InBits(d)
    ensures LittleEndian(TriggerWord(d), 8)
            == LittleEndian(d.tcpCs, 4) + (LittleEndian(d.actionIdx, 2) + LittleEndian(d.size + 0x800 * d.region, 2))
  {
    SmallLimits();
    var upper := d.size + 0x800 * d.region;
    TwoParts(d.tcpCs, d.actionIdx + 0x1_0000 * upper, TWO32, 4, 4);
    TwoParts(d.actionIdx, upper, 0x1_0000, 2, 2);
  }

  lemma CopyBytes(d: Desc)
    requires InBits(d)
    ensures LittleEndian(CopyWord(d), 8)
            == LittleEndian(d.nBytes + 0x1000 * (d.hwHeapAddr % 0x10), 2)
               + LittleEndian(d.hwHeapAddr / 0x10 + 0x1000_0000 * d.opc, 6)
  {
    SmallLimits();
    var low, high := d.hwHeapAddr % 0x10, d.hwHeapAddr / 0x10 + 0x1000_0000 * d.opc;
    assert CopyWord(d) == d.nBytes + 0x1000 * low + 0x1_0000 * high;
    TwoParts(d.nBytes + 0x1000 * low, high, 0x1_0000, 2, 6);
  }

  lemma TriggerLayout(d: Desc)
    requires InBits(d)
    ensures var b := LittleEndian(TriggerWord(d), 8);
            && b[..4] == LittleEndian(d.tcpCs, 4)
            && b[4] == d.actionIdx % 0x100 && b[5] == d.actionIdx / 0x100
            && b[6] == d.size % 0x100 && b[7] == d.size / 0x100 + 8 * d.region
  {
    TriggerBytes(d);
    var w := d.size + 0x800 * d.region;
    LittleEndianPair(d.actionIdx);
    LittleEndianPair(w);
    assert w % 0x100 == d.size % 0x100 && w / 0x100 == d.size / 0x100 + 8 * d.region;
  }

  lemma CopyLayout(d: Desc)
    requires InBits(d)
    ensures var b := LittleEndian(CopyWord(d), 8);
            && b[0] == d.nBytes % 0x100 && b[1] == d.nBytes / 0x100 + 0x10 * (d.hwHeapAddr % 0x10)
            && b[2..] == LittleEndian(d.hwHeapAddr / 0x10 + 0x1000_0000 * d.opc, 6)
  {
    CopyBytes(d);
    var low := d.hwHeapAddr % 0x10;
    var v := d.nBytes + 0x1000 * low;
    LittleEndianPair(v);
    assert v % 0x100 == d.nBytes % 0x100 && v / 0x100 == d.nBytes / 0x100 + 0x10 * low;
  }

  lemma TwoWords(t: seq<Byte>, c: seq<Byte>)
    requires |t| == |c| == 8
    ensures var b := t + c;
            && b[..4] == t[..4] && b[4] == t[4] && b[5] == t[5] && b[6] == t[6] && b[7] == t[7]
            && b[8] == c[0] && b[9] == c[1] && b[10..] == c[2..]
  {
  }

  // The sixteen bytes as they lie in memory: checksum, action, size and region, then the
  // length of the copy, its address from bit 12 on and the operation from bit 44 on.
  lemma DescLayout(d: Desc)
    requires InBits(d)
    ensures var b := DescBytes(d);
            && b[..4] == LittleEndian(d.tcpCs, 4)
            && b[4] == d.actionIdx % 0x100 && b[5] == d.actionIdx / 0x100
            && b[6] == d.size % 0x100 && b[7] == d.size / 0x100 + 8 * d.region
            && b[8] == d.nBytes % 0x100 && b[9] == d.nBytes / 0x100 + 0x10 * (d.hwHeapAddr % 0x10)
            && b[10..] == LittleEndian(d.hwHeapAddr / 0x10 + 0x1000_0000 * d.opc, 6)
  {
    TriggerLayout(d);
    CopyLayout(d);
    TwoWords(LittleEndian(TriggerWord(d), 8), LittleEndian(CopyWord(d), 8));
  }

  lemma SizeIsCut(pktSize: nat)
    ensures pktSize % 0x1_0000 % 0x800 == pktSize <==> pktSize < 0x800
    ensures pktSize < 0x800 ==> RoundUp64(pktSize) % 0x1000 == RoundUp64(pktSize)
  {
  }

  lemma SmallRemainder(x: nat, m: nat)
    requires m > 0
    ensures x % m == x <==> x < m
  {
    if x < m {
      ModUnique(x, m, 0, x);
    }
  }

  // The cuts are harmless, for arguments of the source's types, if and only if the packet is
  // shorter than 2048 bytes and region and address fit.
  lemma NothingIsCut(tcpCs: nat, actionIdx: nat, pktSize: nat, region: nat, hwHeapAddr: nat, opc: nat)
    requires tcpCs < TWO32 && actionIdx < 0x1_0000 && opc < 4
    ensures ReadDesc(DescBytes(MakeDesc(tcpCs, actionIdx, pktSize, region, hwHeapAddr, opc)))
            == Desc(tcpCs, actionIdx, pktSize, region, RoundUp64(pktSize), hwHeapAddr, opc)
            <==> pktSize < 0x800 && region < 0x20 && hwHeapAddr < TWO32
  {
    DescRoundTrip(MakeDesc(tcpCs, actionIdx, pktSize, region, hwHeapAddr, opc));
    SmallRemainder(tcpCs, TWO32);
    SmallRemainder(actionIdx, 0x1_0000);
    SizeIsCut(pktSize);
    SmallRemainder(region, 0x20);
    SmallRemainder(hwHeapAddr, TWO32);
    SmallRemainder(opc, 4);
  }

  // ----- the window -----

  predicate FitsWindows(window: nat, ch: nat, len: nat) { ch * WINDOW + PAYLOAD + len <= window }

  // The window after descriptor and payload have been written.
  function Loaded(window: seq<Byte>, ch: nat, d: Desc, payload: seq<Byte>): (w: seq<Byte>)
    requires InBits(d) && FitsWindows(|window|, ch, |payload|)
    ensures |w| == |window|
  {
    Put(Put(window, ch * WINDOW, DescBytes(d)), ch * WINDOW + PAYLOAD, payload)
  }

  // Channels are 2048 bytes apart, the payload starts 64 bytes into the channel's window, and
  // nothing else is written.
  lemma LoadedPlaces(window: seq<Byte>, ch: nat, d: Desc, payload: seq<Byte>, i: nat)
    requires InBits(d) && 2048 * ch + 64 + |payload| <= |window|
    ensures FitsWindows(|window|, ch, |payload|)
    ensures i < |window| ==>
      Loaded(window, ch, d, payload)[i]
      == if 2048 * ch <= i < 2048 * ch + 16 then DescBytes(d)[i - 2048 * ch]
         else if 2048 * ch + 64 <= i < 2048 * ch + 64 + |payload| then payload[i - 2048 * ch - 64]
         else window[i]
  {
    var one := Put(window, 2048 * ch, DescBytes(d));
    if 2048 * ch <= i < 2048 * ch + 16 {
      assert one[2048 * ch + (i - 2048 * ch)] == DescBytes(d)[i - 2048 * ch];
    } else if 2048 * ch + 64 <= i < 2048 * ch + 64 + |payload| {
      assert Put(one, 2048 * ch + 64, payload)[2048 * ch + 64 + (i - 2048 * ch - 64)] == payload[i - 2048 * ch - 64];
    }
  }

  // The heap after the FPGA has carried out what channel ch holds.
  function Landed(window: seq<Byte>, ch: nat, heap: seq<Byte>): (h: seq<Byte>)
    requires ch * WINDOW + PAYLOAD <= |window|
    ensures |h| == |heap|
  {
    var base := ch * WINDOW;
    var d := ReadDesc(window[base..base + 16]);
    if FitsWindows(|window|, ch, d.nBytes) && d.hwHeapAddr + d.nBytes <= |heap|
    then Put(heap, d.hwHeapAddr, window[base + PAYLOAD..base + PAYLOAD + d.nBytes])
    else heap
  }

  // The payload lands at its address in full.
  lemma LoadedLands(window: seq<Byte>, ch: nat, heap: seq<Byte>, d: Desc, payload: seq<Byte>)
    requires InBits(d) && FitsWindows(|window|, ch, |payload|)
    requires d.nBytes == |payload| && d.hwHeapAddr + |payload| <= |heap|
    ensures var w := Loaded(window, ch, d, payload);
            && ReadDesc(w[ch * WINDOW..ch * WINDOW + 16]) == d
            && Landed(w, ch, heap) == Put(heap, d.hwHeapAddr, payload)
  {
    var base := ch * WINDOW;
    var one := Put(window, base, DescBytes(d));
    var w := Loaded(window, ch, d, payload);
    PutMisses(one, base + PAYLOAD, payload, base, base + 16);
    DescRoundTrip(d);
  }

  // Up to 1984 bytes, no other channel's window changes.
  lemma LoadedIsLocal(window: seq<Byte>, ch: nat, other: nat, d: Desc, payload: seq<Byte>)
    requires InBits(d) && FitsWindows(|window|, ch, |payload|)
    requires |payload| <= WINDOW - PAYLOAD && ch != other && (other + 1) * WINDOW <= |window|
    ensures Loaded(window, ch, d, payload)[other * WINDOW..(other + 1) * WINDOW]
            == window[other * WINDOW..(other + 1) * WINDOW]
  {
    var one := Put(window, ch * WINDOW, DescBytes(d));
    PutMisses(window, ch * WINDOW, DescBytes(d), other * WINDOW, (other + 1) * WINDOW);
    PutMisses(one, ch * WINDOW + PAYLOAD, payload, other * WINDOW, (other + 1) * WINDOW);
  }
}
