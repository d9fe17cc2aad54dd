// Write-combining copies into the heap of the FPGA, to an action's slot or to one of the two
// transmit buffers at the top of the heap. mem is that heap; the copies go through a window
// of the device.
module WcCopy {
  import opened Arith
  import opened Bytes
  import opened Checksum
  import opened EpmRegion
  import opened WcDescriptor

  class EkaWc {
    const regions: Regions
    const window: array<Byte>   // the windows of all channels
    var txBuf: bool

    constructor (regions: Regions, window: array<Byte>)
      ensures this.regions == regions && this.window == window && !txBuf
    {
      this.regions, this.window := regions, window;
      txBuf := false;
    }

    function TxBufAddr(): nat
      reads this
    {
      TxBuf(txBuf)
    }

    predicate ChannelsFit(len: nat) {
      forall r :: 0 <= r < |regions| ==> FitsWindows(window.Length, regions[r].wcChId, len)
    }

    // Descriptor and payload, written into the channel's window.
    method Load(ch: nat, d: Desc, src: seq<Byte>, len: nat)
      requires InBits(d) && len % 8 == 0 && len <= |src| && FitsWindows(window.Length, ch, len)
      modifies window
      ensures window[..] == Loaded(old(window[..]), ch, d, src[..len])
    {
      AtomicCopy(window, ch * WINDOW, DescBytes(d), 16);
      assert DescBytes(d)[..16] == DescBytes(d);
      AtomicCopy(window, ch * WINDOW + PAYLOAD, src, len);
    }

    // The channel of the address; -1 where the source aborts.
    method Channel(hwHeapAddr: nat, ghost len: nat) returns (ch: int)
      requires ChannelsFit(len)
      ensures ch == -1 <==> hwHeapAddr >= HeapBefore(regions, |regions|)
      ensures ch != -1 ==> 0 <= ch && FitsWindows(window.Length, ch, len)
      ensures forall r: nat :: RegionHolds(regions, r, hwHeapAddr) ==> ch == regions[r].wcChId
    {
      ch := GeWcChByOffs(regions, hwHeapAddr);
      if ch != -1 {
        ghost var r: nat :| RegionHolds(regions, r, hwHeapAddr);
        assert ch == regions[r].wcChId;
      }
    }

    method LoadFor(hwHeapAddr: nat, d: Desc, src: seq<Byte>, len: nat) returns (ok: bool, ch: int)
      requires InBits(d) && len % 64 == 0 && len <= |src| && ChannelsFit(len)
      modifies window
      ensures ok <==> hwHeapAddr < HeapBefore(regions, |regions|)
      ensures ok ==> 0 <= ch && FitsWindows(window.Length, ch, len)
      ensures ok ==> forall r: nat :: RegionHolds(regions, r, hwHeapAddr) ==> ch == regions[r].wcChId
      ensures ok ==> window[..] == Loaded(old(window[..]), ch, d, src[..len])
      ensures !ok ==> window[..] == old(window[..])
    {
      ch := Channel(hwHeapAddr, len);
      ok := ch != -1;
      if ok {
        Load(ch, d, src, len);
      }
    }

    // ok is false where the source aborts: the address is in no region.
    method EpmCopyWcBuf(hwHeapAddr: nat, src: seq<Byte>, pktSize: nat, actionLocalIdx: nat, epmRegion: nat)
      returns (ok: bool, ch: int)
      requires RoundUp64(pktSize) <= |src|
      requires ChannelsFit(RoundUp64(pktSize))
      modifies window
      ensures ok <==> hwHeapAddr < HeapBefore(regions, |regions|)
      ensures ok ==> 0 <= ch && FitsWindows(window.Length, ch, RoundUp64(pktSize))
      ensures ok ==> forall r: nat :: RegionHolds(regions, r, hwHeapAddr) ==> ch == regions[r].wcChId
      ensures ok ==> window[..] == Loaded(old(window[..]), ch,
                                          MakeDesc(0, actionLocalIdx, pktSize, epmRegion, hwHeapAddr, 2),
                                          src[..RoundUp64(pktSize)])
      ensures !ok ==> window[..] == old(window[..])
    {
      ok, ch := LoadFor(hwHeapAddr, MakeDesc(0, actionLocalIdx, pktSize, epmRegion, hwHeapAddr, DONT_SEND),
                        src, RoundUp64(pktSize));
    }

    method EpmCopyAndSendWcBuf(src: seq<Byte>, pktSize: nat, actionLocalIdx: nat, epmRegion: nat, tcpPseudoCsum: nat)
      requires RoundUp64(pktSize) <= |src| && FitsWindows(window.Length, 0, RoundUp64(pktSize))
      modifies window, this`txBuf
      ensures window[..] == Loaded(old(window[..]), 0,
                                   MakeDesc(tcpPseudoCsum, actionLocalIdx, pktSize, epmRegion,
                                            if old(txBuf) then 0x7F_F000 else 0x7F_F800, 1),
                                   src[..RoundUp64(pktSize)])
      ensures txBuf == !old(txBuf)
    {
      Load(0, MakeDesc(tcpPseudoCsum, actionLocalIdx, pktSize, epmRegion, TxBufAddr(), SEND), src, RoundUp64(pktSize));
      txBuf := !txBuf;
    }
  }

  // Eight bytes at a time.
  method AtomicCopy(mem: array<Byte>, dst: nat, src: seq<Byte>, len: nat)
    requires len % 8 == 0 && len <= |src| && dst + len <= mem.Length
    modifies mem
    ensures mem[..] == Put(old(mem[..]), dst, src[..len])
  {
    ghost var was := mem[..];
    for i := 0 to len / 8
      invariant forall j :: 0 <= j < mem.Length ==>
                  mem[j] == if dst <= j < dst + 8 * i then src[j - dst] else was[j]
    {
      var o := 8 * i;
      forall b | 0 <= b < 8 {
        mem[dst + o + b] := src[o + b];
      }
    }
    assert mem[..] == Put(was, dst, src[..len]);
  }

  function Slot(t: Regions, mem: seq<Byte>, r: nat, l: nat): seq<Byte>
    requires IsLocal(t, r, l) && SlotOffs(t, r, l) + t[r].budget <= |mem|
  {
    mem[SlotOffs(t, r, l)..SlotOffs(t, r, l) + t[r].budget]
  }

  lemma PutReads(mem: seq<Byte>, at: nat, src: seq<Byte>, len: nat, n: nat, budget: nat)
    requires n <= len <= |src| && len <= budget && at + budget <= |mem|
    ensures Put(mem, at, src[..len])[at..at + budget][..n] == src[..n] == Put(mem, at, src[..len])[at..at + n]
  {
    var mem' := Put(mem, at, src[..len]);
    var slot := mem'[at..at + budget];
    assert forall k :: 0 <= k < n ==> slot[k] == mem'[at + k] == src[..len][k];
  }

  lemma SlotInHeap(t: Regions, r: nat, l: nat)
    requires IsLocal(t, r, l)
    ensures SlotOffs(t, r, l) + t[r].budget <= HeapBefore(t, |t|)
  {
    SlotInRegion(t, r, l);
    BeforeGrows(t, r + 1, |t|);
  }

  // Writing len bytes into one stretch of memory, seen from it and from another one.
  lemma StretchWritten(mem: seq<Byte>, at: nat, size: nat, at2: nat, size2: nat, src: seq<Byte>, len: nat, n: nat)
    requires n <= len <= size && len <= |src| && at + size <= |mem| && at2 + size2 <= |mem|
    ensures var mem' := Put(mem, at, src[..len]);
            && mem'[at..at + size][..n] == src[..n] && mem'[at..at + n] == src[..n]
            && (at + size <= at2 || at2 + size2 <= at ==> mem'[at2..at2 + size2] == mem[at2..at2 + size2])
  {
    PutReads(mem, at, src, len, n, size);
    if at + size <= at2 || at2 + size2 <= at {
      PutMisses(mem, at, src[..len], at2, at2 + size2);
    }
  }

  // The heap after the FPGA has carried out a copy of n bytes to addr through channel ch.
  ghost function Copied(mem: seq<Byte>, window: seq<Byte>, ch: nat, d: Desc, src: seq<Byte>): seq<Byte>
    requires InBits(d) && FitsWindows(|window|, ch, |src|)
  {
    Landed(Loaded(window, ch, d, src), ch, mem)
  }

  // A packet shorter than 2048 bytes lands at its address, and the FPGA is told what it is.
  lemma CopyLands(mem: seq<Byte>, window: seq<Byte>, ch: nat, src: seq<Byte>, n: nat,
                  tcpCs: nat, actionIdx: nat, region: nat, addr: nat, opc: nat)
    requires n < 0x800 && RoundUp64(n) <= |src| && FitsWindows(|window|, ch, RoundUp64(n))
    requires tcpCs < TWO32 && actionIdx < 0x1_0000 && region < 0x20 && opc < 4
    requires addr + RoundUp64(n) <= |mem| <= TWO32 && addr < TWO32
    ensures var d, payload := MakeDesc(tcpCs, actionIdx, n, region, addr, opc), src[..RoundUp64(n)];
            && ReadDesc(Loaded(window, ch, d, payload)[ch * WINDOW..ch * WINDOW + 16])
               == Desc(tcpCs, actionIdx, n, region, RoundUp64(n), addr, opc)
            && Copied(mem, window, ch, d, payload) == Put(mem, addr, payload)
  {
    NothingIsCut(tcpCs, actionIdx, n, region, addr, opc);
    var d := MakeDesc(tcpCs, actionIdx, n, region, addr, opc);
    DescRoundTrip(d);
    LoadedLands(window, ch, mem, d, src[..RoundUp64(n)]);
  }

  // A copy that fits its own slot reads back there.
  lemma CopyReadsBack(t: Regions, mem: seq<Byte>, r: nat, l: nat, src: seq<Byte>, n: nat)
    requires IsLocal(t, r, l) && HeapBefore(t, |t|) <= |mem|
    requires t[r].budget % 64 == 0 && n <= t[r].budget && RoundUp64(n) <= |src|
    ensures SlotOffs(t, r, l) + RoundUp64(n) <= SlotOffs(t, r, l) + t[r].budget <= |mem|
    ensures Slot(t, Put(mem, SlotOffs(t, r, l), src[..RoundUp64(n)]), r, l)[..n] == src[..n]
  {
    SlotInHeap(t, r, l);
    CopiesStayInSlot(t[r].budget);
    PutReads(mem, SlotOffs(t, r, l), src, RoundUp64(n), n, t[r].budget);
  }

  // And no other action's slot changes.
  lemma CopyIsLocal(t: Regions, mem: seq<Byte>, r: nat, l: nat, r2: nat, l2: nat, src: seq<Byte>, n: nat)
    requires IsLocal(t, r, l) && IsLocal(t, r2, l2) && (r, l) != (r2, l2) && HeapBefore(t, |t|) <= |mem|
    requires t[r].budget % 64 == 0 && n <= t[r].budget && RoundUp64(n) <= |src|
    ensures SlotOffs(t, r, l) + RoundUp64(n) <= |mem| && SlotOffs(t, r2, l2) + t[r2].budget <= |mem|
    ensures Slot(t, Put(mem, SlotOffs(t, r, l), src[..RoundUp64(n)]), r2, l2) == Slot(t, mem, r2, l2)
  {
    SlotInHeap(t, r, l);
    SlotInHeap(t, r2, l2);
    CopiesStayInSlot(t[r].budget);
    SlotsAreDisjoint(t, r, l, r2, l2);
    PutMisses(mem, SlotOffs(t, r, l), src[..RoundUp64(n)], SlotOffs(t, r2, l2), SlotOffs(t, r2, l2) + t[r2].budget);
  }

  lemma DriverHeap(r: nat, l: nat)
    requires IsLocal(DriverRegions(), r, l)
    ensures var t := DriverRegions();
            && HeapBefore(t, |t|) <= HEAP_BYTES && SlotOffs(t, r, l) + t[r].budget <= HEAP_BYTES
            && r < 0x20 && l < 0x1_0000
  {
    DriverTotals();
    SlotInHeap(DriverRegions(), r, l);
    if r >= 8 {
      assert DriverRegions()[r] == IgmpRegion(r - 8);
    }
  }

  lemma RegularFits(ch: nat, n: nat)
    requires ch < MAX_WC_CH && n <= REGULAR
    ensures RoundUp64(n) <= REGULAR && FitsWindows(MAX_WC_CH * WINDOW, ch, RoundUp64(n))
  {
    CopiesStayInSlot(REGULAR);
  }

  // In the driver's table, a packet copied from its slot in the host's heap through its
  // region's channel is in the same slot of the FPGA's heap, and no other slot has changed.
  lemma DriverCopy(mem: seq<Byte>, window: seq<Byte>, r: nat, l: nat, r2: nat, l2: nat, src: seq<Byte>, n: nat)
    requires |mem| == HEAP_BYTES && |window| == MAX_WC_CH * WINDOW && RoundUp64(n) <= |src|
    requires IsLocal(DriverRegions(), r, l) && n <= DriverRegions()[r].budget
    requires IsLocal(DriverRegions(), r2, l2) && (r, l) != (r2, l2)
    ensures var t, ch, payload := DriverRegions(), DriverRegions()[r].wcChId, src[..RoundUp64(n)];
            && FitsWindows(|window|, ch, RoundUp64(n))
            && SlotOffs(t, r, l) + t[r].budget <= |mem| && SlotOffs(t, r2, l2) + t[r2].budget <= |mem|
            && var mem' := Copied(mem, window, ch, MakeDesc(0, l, n, r, SlotOffs(t, r, l), DONT_SEND), payload);
               Slot(t, mem', r, l)[..n] == src[..n] && Slot(t, mem', r2, l2) == Slot(t, mem, r2, l2)
  {
    var t := DriverRegions();
    DriverRow(r);
    DriverHeap(r, l);
    DriverHeap(r2, l2);
    RegularFits(t[r].wcChId, n);
    CopiesStayInSlot(t[r].budget);
    CopyLands(mem, window, t[r].wcChId, src, n, 0, l, r, SlotOffs(t, r, l), DONT_SEND);
    CopyReadsBack(t, mem, r, l, src, n);
    CopyIsLocal(t, mem, r, l, r2, l2, src, n);
  }

  function TxBuf(second: bool): nat { if second then TX_BUF_1 else TX_BUF_0 }

  lemma SendLands(mem: seq<Byte>, window: seq<Byte>, at: nat, src: seq<Byte>, n: nat, r: nat, l: nat, csum: nat)
    requires |mem| == HEAP_BYTES && |window| == MAX_WC_CH * WINDOW && csum < TWO32 && r < 0x20 && l < 0x1_0000
    requires n <= REGULAR && RoundUp64(n) <= |src| && at + 2048 <= HEAP_BYTES
    ensures FitsWindows(|window|, 0, RoundUp64(n)) && RoundUp64(n) <= REGULAR
    ensures var d, payload := MakeDesc(csum, l, n, r, at, SEND), src[..RoundUp64(n)];
            && ReadDesc(Loaded(window, 0, d, payload)[..16]) == Desc(csum, l, n, r, RoundUp64(n), at, SEND)
            && Copied(mem, window, 0, d, payload) == Put(mem, at, payload)
  {
    RegularFits(0, n);
    CopyLands(mem, window, 0, src, n, csum, l, r, at, SEND);
  }

  // A send goes through a transmit buffer, as the action it names. It changes no slot of the
  // driver's table, nor the other buffer, which may still be on its way out.
  lemma SendIsLocal(mem: seq<Byte>, window: seq<Byte>, second: bool, src: seq<Byte>, n: nat, r: nat, l: nat, csum: nat)
    requires |mem| == HEAP_BYTES && |window| == MAX_WC_CH * WINDOW && csum < TWO32
    requires n <= REGULAR && RoundUp64(n) <= |src| && IsLocal(DriverRegions(), r, l)
    ensures var t, at, other := DriverRegions(), TxBuf(second), TxBuf(!second);
            && FitsWindows(|window|, 0, RoundUp64(n)) && SlotOffs(t, r, l) + t[r].budget <= TX_BUF_1
            && var d, payload := MakeDesc(csum, l, n, r, at, SEND), src[..RoundUp64(n)];
               var mem' := Copied(mem, window, 0, d, payload);
               && ReadDesc(Loaded(window, 0, d, payload)[..16]) == Desc(csum, l, n, r, RoundUp64(n), at, SEND)
               && Slot(t, mem', r, l) == Slot(t, mem, r, l)
               && mem'[other..other + 2048] == mem[other..other + 2048]
               && mem'[at..at + n] == src[..n]
  {
    var t, at, other := DriverRegions(), TxBuf(second), TxBuf(!second);
    DriverRow(r);
    DriverHeap(r, l);
    TxBuffersAreApart(r, l, t[r].budget);
    SendLands(mem, window, at, src, n, r, l, csum);
    StretchWritten(mem, at, 2048, other, 2048, src, RoundUp64(n), n);
    StretchWritten(mem, at, 2048, SlotOffs(t, r, l), t[r].budget, src, RoundUp64(n), n);
  }
}
