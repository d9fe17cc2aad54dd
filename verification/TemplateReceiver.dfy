// What the receiver of a packet sees that the FPGA has completed: the checksum is folded, so
// the hardware's sum need only be right modulo 2^16 - 1, and the packet may be shorter than
// its template.
module TemplateReceiver {
  import opened Arith
  import opened Checksum
  import opened PseudoChecksum
  import opened Template
  import opened TemplateChecksum

  // ----- how far off the hardware can be -----

  // The weights of the bytes that register byte h lands on.
  ghost function Landings(cells: seq<Cell>, h: Byte): nat
    decreases |cells|
  {
    if cells == [] then 0
    else
      var n := |cells| - 1;
      Landings(cells[..n], h) + if IsSummed(cells[n]) && cells[n].h == h then Weight(n) else 0
  }

  // The weights with which the bitmaps select it.
  ghost function Selected(cells: seq<Cell>, h: Byte): nat {
    (if Covered(cells, false, h) then 1 else 0) + if Covered(cells, true, h) then 0x100 else 0
  }

  ghost function Excess(cells: seq<Cell>, h: Byte): int { Landings(cells, h) - Selected(cells, h) }

  ghost function RegisterExcess(cells: seq<Cell>, hw: Registers, n: nat): int
    requires n <= HW_BYTES
  {
    if n == 0 then 0 else RegisterExcess(cells, hw, n - 1) + hw[n - 1] as int * Excess(cells, n - 1)
  }

  // Packet bytes that the template should have cleared.
  ghost function Leftover(cells: seq<Cell>, pkt: seq<Byte>): nat
    requires |pkt| == |cells|
    decreases |cells|
  {
    if cells == [] then 0
    else
      var n := |cells| - 1;
      Leftover(cells[..n], pkt[..n])
      + if IsSummed(cells[n]) && !cells[n].clear then Weight(n) * pkt[n] as int else 0
  }

  lemma ExcessNext(cells: seq<Cell>, c: Cell, h: Byte)
    ensures Excess(cells + [c], h)
            == Excess(cells, h)
               + if IsSummed(c) && c.h == h && Covered(cells, |cells| % 2 == 1, h) then Weight(|cells|) else 0
  {
    var more := cells + [c];
    assert more[..|cells|] == cells && more[|cells|] == c;
    CoveredNext(cells, c, false, h);
    CoveredNext(cells, c, true, h);
  }

  lemma Distribute(x: int, e: int, w: int)
    ensures x * (e + w) == x * e + w * x
  {
  }

  lemma {:induction false} RegisterExcessNext(cells: seq<Cell>, c: Cell, hw: Registers, n: nat)
    requires n <= HW_BYTES
    ensures RegisterExcess(cells + [c], hw, n)
            == RegisterExcess(cells, hw, n)
               + if IsSummed(c) && c.h < n && Covered(cells, |cells| % 2 == 1, c.h)
                 then Weight(|cells|) * hw[c.h] as int else 0
    decreases n
  {
    if n > 0 {
      RegisterExcessNext(cells, c, hw, n - 1);
      ExcessNext(cells, c, n - 1);
      Distribute(hw[n - 1] as int, Excess(cells, n - 1), Weight(|cells|));
    }
  }

  lemma {:induction false} RegisterExcessOfNone(hw: Registers, n: nat)
    requires n <= HW_BYTES
    ensures RegisterExcess([], hw, n) == 0
    decreases n
  {
    if n > 0 {
      RegisterExcessOfNone(hw, n - 1);
      assert Excess([], n - 1) == 0;
    }
  }

  // A byte adds to the gap if its register byte was selected already, and takes away what
  // it leaves uncleared.
  lemma GapOfParts(c: Cell, x: Byte, hw: Registers, seen: bool, w: nat)
    ensures w * GapOf(c, x, hw, seen)
            == (if IsSummed(c) && seen then w * hw[c.h] as int else 0)
               - if IsSummed(c) && !c.clear then w * x as int else 0
  {
  }

  // The gap in full: every register byte counts with its excess, every packet byte left over
  // with its weight.
  lemma {:induction false} GapIsLinear(cells: seq<Cell>, pkt: seq<Byte>, hw: Registers)
    requires |pkt| == |cells|
    ensures Gap(cells, pkt, hw) == RegisterExcess(cells, hw, HW_BYTES) - Leftover(cells, pkt)
    decreases |cells|
  {
    if cells == [] {
      EmptyGap(hw);
      RegisterExcessOfNone(hw, HW_BYTES);
    } else {
      var n := |cells| - 1;
      var c, x := cells[n], pkt[n];
      assert cells == cells[..n] + [c] && pkt == pkt[..n] + [x];
      GapIsLinear(cells[..n], pkt[..n], hw);
      GapNext(cells[..n], c, pkt[..n], x, hw);
      GapOfParts(c, x, hw, c.Hw? && Covered(cells[..n], n % 2 == 1, c.h), Weight(n));
      RegisterExcessNext(cells[..n], c, hw, HW_BYTES);
    }
  }

  // ----- right modulo 2^16 - 1 -----

  ghost predicate RightModulo(cells: seq<Cell>) {
    forall pkt: seq<Byte>, hw: Registers {:trigger Gap(cells, pkt, hw)} ::
      |pkt| == |cells| ==> Gap(cells, pkt, hw) % ONES == 0
  }

  predicate AllCleared(cells: seq<Cell>) {
    forall k :: 0 <= k < |cells| && IsSummed(cells[k]) ==> cells[k].clear
  }

  ghost predicate ExcessFits(cells: seq<Cell>) {
    forall h: Byte :: Excess(cells, h) % ONES == 0
  }

  function Unit(h: Byte): Registers { seq<Byte>(HW_BYTES, k requires 0 <= k => if k == h then 1 else 0) }

  function NoRegisters(): Registers { seq<Byte>(HW_BYTES, _ => 0) }

  function UnitPacket(n: nat, at: nat): seq<Byte> {
    seq<Byte>(n, k requires 0 <= k => if k == at then 1 else 0)
  }

  lemma {:induction false} ExcessOfUnit(cells: seq<Cell>, h: Byte, n: nat)
    requires n <= HW_BYTES
    ensures RegisterExcess(cells, Unit(h), n) == if h < n then Excess(cells, h) else 0
    ensures RegisterExcess(cells, NoRegisters(), n) == 0
    decreases n
  {
    if n > 0 {
      ExcessOfUnit(cells, h, n - 1);
    }
  }

  lemma {:induction false} ExcessMultiple(cells: seq<Cell>, hw: Registers, n: nat) returns (q: int)
    requires n <= HW_BYTES && ExcessFits(cells)
    ensures RegisterExcess(cells, hw, n) == q * ONES
    decreases n
  {
    q := 0;
    if n > 0 {
      var rest := ExcessMultiple(cells, hw, n - 1);
      var x, e := hw[n - 1] as int, Excess(cells, n - 1);
      assert e % ONES == 0;
      var m := e / ONES;
      assert e == m * ONES;
      assert x * (m * ONES) == (x * m) * ONES;
      q := rest + x * m;
    }
  }

  lemma {:induction false} LeftoverOfCleared(cells: seq<Cell>, pkt: seq<Byte>)
    requires |pkt| == |cells|
    ensures AllCleared(cells) ==> Leftover(cells, pkt) == 0
    ensures (forall k :: 0 <= k < |pkt| ==> pkt[k] == 0) ==> Leftover(cells, pkt) == 0
    decreases |cells|
  {
    if cells != [] {
      var n := |cells| - 1;
      LeftoverOfCleared(cells[..n], pkt[..n]);
      assert AllCleared(cells) ==> AllCleared(cells[..n]) by {
        assert forall k :: 0 <= k < n ==> cells[..n][k] == cells[k];
      }
    }
  }

  lemma {:induction false} LeftoverOfUnit(cells: seq<Cell>, at: nat, n: nat)
    requires at < |cells| && IsSummed(cells[at]) && !cells[at].clear && n <= |cells|
    ensures Leftover(cells[..n], UnitPacket(n, at)) == if at < n then Weight(at) else 0
    decreases n
  {
    if n > 0 {
      LeftoverOfUnit(cells, at, n - 1);
      assert cells[..n][..n - 1] == cells[..n - 1];
      assert UnitPacket(n, at)[..n - 1] == UnitPacket(n - 1, at);
    }
  }

  lemma LeftoverNext(cells: seq<Cell>, pkt: seq<Byte>, n: nat)
    requires n < |cells| == |pkt|
    ensures Leftover(cells[..n + 1], pkt[..n + 1])
            == Leftover(cells[..n], pkt[..n])
               + if IsSummed(cells[n]) && !cells[n].clear then Weight(n) * pkt[n] as int else 0
  {
    assert cells[..n + 1][..n] == cells[..n] && pkt[..n + 1][..n] == pkt[..n];
  }

  lemma LeftoverNextTwo(cells: seq<Cell>, pkt: seq<Byte>, n: nat)
    requires 2 <= n <= |cells| == |pkt| && n % 2 == 1
    requires IsSummed(cells[n - 2]) && !cells[n - 2].clear && IsSummed(cells[n - 1]) && !cells[n - 1].clear
    ensures Leftover(cells[..n], pkt[..n])
            == Leftover(cells[..n - 2], pkt[..n - 2]) + 0x100 * pkt[n - 2] as int + pkt[n - 1] as int
  {
    LeftoverNext(cells, pkt, n - 2);
    LeftoverNext(cells, pkt, n - 1);
  }

  // An uncleared stretch from an odd byte on counts with its words in network order.
  lemma {:induction false} LeftoverFrom(cells: seq<Cell>, pkt: seq<Byte>, lo: nat, n: nat)
    requires |pkt| == |cells| && lo % 2 == 1 && lo <= n <= |cells| && (n - lo) % 2 == 0
    requires forall k :: 0 <= k < |cells| && IsSummed(cells[k]) ==> (cells[k].clear <==> k < lo)
    requires forall k :: lo <= k < |cells| ==> IsSummed(cells[k])
    ensures Leftover(cells[..n], pkt[..n]) == NetSum(pkt[lo..n])
    decreases n
  {
    if n == lo {
      LeftoverOfCleared(cells[..n], pkt[..n]);
    } else {
      LeftoverFrom(cells, pkt, lo, n - 2);
      LeftoverNextTwo(cells, pkt, n);
      NetSumLast(pkt, lo, n);
    }
  }

  lemma NetSumLast(b: seq<Byte>, lo: nat, n: nat)
    requires lo + 2 <= n <= |b| && (n - lo) % 2 == 0
    ensures NetSum(b[lo..n]) == NetSum(b[lo..n - 2]) + 0x100 * b[n - 2] as int + b[n - 1] as int
  {
    var s := b[lo..n];
    NetSumSplit(s, n - 2 - lo);
    assert s[..n - 2 - lo] == b[lo..n - 2] && s[n - 2 - lo..] == [b[n - 2], b[n - 1]];
    assert [b[n - 2], b[n - 1]][2..] == [];
  }

  lemma WeightIsNoMultiple(k: nat)
    ensures Weight(k) % ONES != 0 && (-(Weight(k) as int)) % ONES != 0
  {
  }

  // The folded sum is right for every packet and every register file if and only if every
  // register byte is cleared beforehand and its excess vanishes modulo 2^16 - 1.
  lemma RightModuloExactly(cells: seq<Cell>)
    ensures RightModulo(cells) <==> AllCleared(cells) && ExcessFits(cells)
  {
    if AllCleared(cells) && ExcessFits(cells) {
      forall pkt: seq<Byte>, hw: Registers {:trigger Gap(cells, pkt, hw)} | |pkt| == |cells|
        ensures Gap(cells, pkt, hw) % ONES == 0
      {
        GapIsLinear(cells, pkt, hw);
        LeftoverOfCleared(cells, pkt);
        var q := ExcessMultiple(cells, hw, HW_BYTES);
        ModUnique(q * ONES, ONES, q, 0);
      }
    } else if !AllCleared(cells) {
      var k :| 0 <= k < |cells| && IsSummed(cells[k]) && !cells[k].clear;
      UnclearedIsWrong(cells, k);
    } else {
      var h: Byte :| Excess(cells, h) % ONES != 0;
      var pkt := seq<Byte>(|cells|, _ => 0);
      GapIsLinear(cells, pkt, Unit(h));
      LeftoverOfCleared(cells, pkt);
      ExcessOfUnit(cells, h, HW_BYTES);
      assert Gap(cells, pkt, Unit(h)) % ONES != 0;
    }
  }

  lemma UnclearedIsWrong(cells: seq<Cell>, k: nat)
    requires k < |cells| && IsSummed(cells[k]) && !cells[k].clear
    ensures Gap(cells, UnitPacket(|cells|, k), NoRegisters()) % ONES != 0
  {
    assert cells[..|cells|] == cells;
    GapIsLinear(cells, UnitPacket(|cells|, k), NoRegisters());
    LeftoverOfUnit(cells, k, |cells|);
    ExcessOfUnit(cells, 0, HW_BYTES);
    WeightIsNoMultiple(k);
  }

  // ----- the receiver -----

  predicate IsSegment(cells: seq<Cell>, pkt: seq<Byte>, n: nat) {
    |pkt| == |cells| && 20 <= n <= ONES && TCP + n <= |cells|
  }

  // The segment of n bytes as the hardware fills it.
  function FilledSegment(cells: seq<Cell>, pkt: seq<Byte>, hw: Registers, n: nat): (seg: seq<Byte>)
    requires IsSegment(cells, pkt, n)
    ensures |seg| == n
  {
    Filled(cells, pkt, hw)[TCP..TCP + n]
  }

  function PartialOf(cells: seq<Cell>, pkt: seq<Byte>, n: nat): nat
    requires IsSegment(cells, pkt, n)
  {
    PseudoSum(pkt[IP..TCP], Cleared(cells, pkt)[TCP..TCP + n])
  }

  // The receiver's folded sum of the segment with the checksum that the hardware completes
  // from the partial sum.
  ghost function ReceiverSum(cells: seq<Cell>, pkt: seq<Byte>, hw: Registers, n: nat): Word16
    requires IsSegment(cells, pkt, n)
  {
    var w: Word16 := ONES - Fold(PartialOf(cells, pkt, n) + HardwareSum(cells, hw));
    Fold(PseudoSum(pkt[IP..TCP], PutWord(FilledSegment(cells, pkt, hw, n), 16, w)))
  }

  lemma SumWithChecksum(ip: seq<Byte>, seg: seq<Byte>, w: Word16)
    requires |ip| == IP_HDR && 20 <= |seg| <= ONES && seg[16] == 0 && seg[17] == 0
    ensures PseudoSum(ip, PutWord(seg, 16, w)) == PseudoSum(ip, seg) + w
  {
    PseudoSumSplit(ip, seg);
    PseudoSumSplit(ip, PutWord(seg, 16, w));
    WordSumPut(seg, 16, w);
  }

  lemma PseudoSumPositive(ip: seq<Byte>, seg: seq<Byte>)
    requires |ip| == IP_HDR && |seg| <= ONES
    ensures PseudoSum(ip, seg) > 0
  {
    PseudoSumSplit(ip, seg);
    PseudoHeaderSum(ip, PROTO_TCP, |seg|);
  }

  // Adding the complement of one sum to another gives all ones if and only if they agree
  // modulo 2^16 - 1.
  lemma ComplementVerifies(s: nat, p: nat)
    requires s > 0
    ensures Fold(s + (ONES - Fold(p))) == ONES <==> (s - p) % ONES == 0
  {
    var f, total := Fold(p), s + (ONES - Fold(p));
    FoldIsCongruent(p);
    var q := (p - f) / ONES;
    assert p - f == q * ONES;
    var a, r := (s - p) / ONES, (s - p) % ONES;
    assert s - p == a * ONES + r;
    assert total == (a + q + 1) * ONES + r;
    if r == 0 {
      FoldUnique(total, ONES, a + q);
    } else {
      FoldUnique(total, r, a + q + 1);
    }
  }

  // The bitmaps' share of what lies behind the packet.
  ghost function Beyond(cells: seq<Cell>, hw: Registers, m: nat): int
    requires m <= |cells|
  {
    HardwareSum(cells, hw) - HardwareSum(cells[..m], hw)
  }

  lemma SegmentGap(cells: seq<Cell>, pkt: seq<Byte>, hw: Registers, n: nat)
    requires HasTcpHeader(cells) && IsSegment(cells, pkt, n)
    ensures var m := TCP + n;
            PseudoSum(pkt[IP..TCP], FilledSegment(cells, pkt, hw, n))
            - (PartialOf(cells, pkt, n) + HardwareSum(cells, hw))
            == Gap(cells[..m], pkt[..m], hw) - Beyond(cells, hw, m)
  {
    var m := TCP + n;
    var c, f := Cleared(cells, pkt), Filled(cells, pkt, hw);
    assert Cleared(cells[..m], pkt[..m]) == c[..m] && Filled(cells[..m], pkt[..m], hw) == f[..m];
    WordSumExtend(c, TCP, m);
    WordSumExtend(f, TCP, m);
    assert c[..TCP] == f[..TCP];
    PseudoSumSplit(pkt[IP..TCP], c[TCP..m]);
    PseudoSumSplit(pkt[IP..TCP], f[TCP..m]);
  }

  // The receiver accepts if and only if gap and excess selection cancel modulo 2^16 - 1.
  lemma ReceiverAccepts(cells: seq<Cell>, pkt: seq<Byte>, hw: Registers, n: nat)
    requires HasTcpHeader(cells) && IsSegment(cells, pkt, n)
    ensures var m := TCP + n;
            ReceiverSum(cells, pkt, hw, n) == ONES
            <==> (Gap(cells[..m], pkt[..m], hw) - Beyond(cells, hw, m)) % ONES == 0
  {
    var ip, seg := pkt[IP..TCP], FilledSegment(cells, pkt, hw, n);
    var p := PartialOf(cells, pkt, n) + HardwareSum(cells, hw);
    assert seg[16] == 0 && seg[17] == 0 by {
      assert seg[16] == Filled(cells, pkt, hw)[TCP + 16] && seg[17] == Filled(cells, pkt, hw)[TCP + 17];
    }
    SumWithChecksum(ip, seg, ONES - Fold(p));
    PseudoSumPositive(ip, seg);
    ComplementVerifies(PseudoSum(ip, seg), p);
    SegmentGap(cells, pkt, hw, n);
  }

  // Every packet that fills the template verifies, whatever the registers hold.
  ghost predicate FullPacketsVerify(cells: seq<Cell>)
    requires TCP + 20 <= |cells| <= TCP + ONES
  {
    forall pkt: seq<Byte>, hw: Registers {:trigger ReceiverSum(cells, pkt, hw, |cells| - TCP)} ::
      |pkt| == |cells| ==> ReceiverSum(cells, pkt, hw, |cells| - TCP) == ONES
  }

  lemma FullReceiver(cells: seq<Cell>, pkt: seq<Byte>, hw: Registers)
    requires HasTcpHeader(cells) && |cells| <= TCP + ONES && |pkt| == |cells|
    ensures ReceiverSum(cells, pkt, hw, |cells| - TCP) == ONES <==> Gap(cells, pkt, hw) % ONES == 0
  {
    assert cells[..|cells|] == cells && pkt[..|cells|] == pkt;
    ReceiverAccepts(cells, pkt, hw, |cells| - TCP);
  }

  // So full packets verify if and only if the template clears its register bytes and no
  // excess remains modulo 2^16 - 1.
  lemma FullPacketsVerifyExactly(cells: seq<Cell>)
    requires HasTcpHeader(cells) && |cells| <= TCP + ONES
    ensures FullPacketsVerify(cells) <==> AllCleared(cells) && ExcessFits(cells)
  {
    RightModuloExactly(cells);
    if RightModulo(cells) {
      forall pkt: seq<Byte>, hw: Registers
        {:trigger ReceiverSum(cells, pkt, hw, |cells| - TCP)} | |pkt| == |cells|
        ensures ReceiverSum(cells, pkt, hw, |cells| - TCP) == ONES
      {
        FullReceiver(cells, pkt, hw);
      }
    } else {
      var pkt: seq<Byte>, hw: Registers :| |pkt| == |cells| && Gap(cells, pkt, hw) % ONES != 0;
      FullReceiver(cells, pkt, hw);
      assert ReceiverSum(cells, pkt, hw, |cells| - TCP) != ONES;
    }
  }

  // When only the clearing is at fault, the packet itself decides: it verifies if and only if
  // what it holds in the uncleared register bytes vanishes modulo 2^16 - 1.
  lemma LeftoverDecides(cells: seq<Cell>, pkt: seq<Byte>, hw: Registers)
    requires HasTcpHeader(cells) && |cells| <= TCP + ONES && |pkt| == |cells| && ExcessFits(cells)
    ensures ReceiverSum(cells, pkt, hw, |cells| - TCP) == ONES <==> Leftover(cells, pkt) % ONES == 0
  {
    FullReceiver(cells, pkt, hw);
    LeftoverGap(cells, pkt, hw);
  }

  lemma LeftoverGap(cells: seq<Cell>, pkt: seq<Byte>, hw: Registers)
    requires |pkt| == |cells| && ExcessFits(cells)
    ensures Gap(cells, pkt, hw) % ONES == 0 <==> Leftover(cells, pkt) % ONES == 0
  {
    var q := GapMultiple(cells, pkt, hw);
    MultipleLess(Gap(cells, pkt, hw), q, Leftover(cells, pkt));
  }

  lemma GapMultiple(cells: seq<Cell>, pkt: seq<Byte>, hw: Registers) returns (q: int)
    requires |pkt| == |cells| && ExcessFits(cells)
    ensures Gap(cells, pkt, hw) == q * ONES - Leftover(cells, pkt)
  {
    GapIsLinear(cells, pkt, hw);
    q := ExcessMultiple(cells, hw, HW_BYTES);
  }

  lemma MultipleLess(g: int, q: int, x: int)
    requires g == q * ONES - x
    ensures g % ONES == 0 <==> x % ONES == 0
  {
    var a, r := x / ONES, x % ONES;
    if r == 0 {
      ModUnique(g, ONES, q - a, 0);
    } else {
      ModUnique(g, ONES, q - a - 1, ONES - r);
    }
  }

  // Templates that differ only in what they clear.
  predicate SameUse(cells: seq<Cell>, other: seq<Cell>) {
    && |cells| == |other|
    && forall k :: 0 <= k < |cells| ==>
         IsSummed(cells[k]) == IsSummed(other[k]) && (IsSummed(cells[k]) ==> cells[k].h == other[k].h)
  }

  lemma {:induction false} SameLandings(cells: seq<Cell>, other: seq<Cell>, h: Byte)
    requires SameUse(cells, other)
    ensures Landings(cells, h) == Landings(other, h)
    decreases |cells|
  {
    if cells != [] {
      var n := |cells| - 1;
      assert forall k :: 0 <= k < n ==> cells[..n][k] == cells[k] && other[..n][k] == other[k];
      SameLandings(cells[..n], other[..n], h);
    }
  }

  lemma SameCovered(cells: seq<Cell>, other: seq<Cell>, odd: bool, h: Byte)
    requires SameUse(cells, other) && Covered(cells, odd, h)
    ensures Covered(other, odd, h)
  {
    var k :| 0 <= k < |cells| && Takes(cells, k, odd, h);
    assert Takes(other, k, odd, h);
  }

  lemma SameExcess(cells: seq<Cell>, other: seq<Cell>, h: Byte)
    requires SameUse(cells, other)
    ensures Excess(cells, h) == Excess(other, h)
  {
    SameLandings(cells, other, h);
    if Covered(cells, false, h) { SameCovered(cells, other, false, h); }
    if Covered(cells, true, h) { SameCovered(cells, other, true, h); }
    if Covered(other, false, h) { SameCovered(other, cells, false, h); }
    if Covered(other, true, h) { SameCovered(other, cells, true, h); }
  }

  // Well-formed templates, where each byte lands once on a parity, qualify.
  lemma WellFormedVerifies(cells: seq<Cell>)
    requires HasTcpHeader(cells) && |cells| <= TCP + ONES && WellFormed(cells)
    ensures FullPacketsVerify(cells)
  {
    HardwareFillIsRight(cells);
    forall pkt: seq<Byte>, hw: Registers
      {:trigger ReceiverSum(cells, pkt, hw, |cells| - TCP)} | |pkt| == |cells|
      ensures ReceiverSum(cells, pkt, hw, |cells| - TCP) == ONES
    {
      FullReceiver(cells, pkt, hw);
    }
  }

  // ----- packets shorter than the template -----

  lemma {:induction false} SelectedOfUnit(cells: seq<Cell>, odd: bool, h: Byte, n: nat)
    requires n <= HW_BYTES
    ensures SelectedSum(cells, odd, Unit(h), n) == if h < n && Covered(cells, odd, h) then 1 else 0
    decreases n
  {
    if n > 0 {
      SelectedOfUnit(cells, odd, h, n - 1);
    }
  }

  lemma CoveredPrefix(cells: seq<Cell>, m: nat, odd: bool, h: Byte)
    requires m <= |cells| && Covered(cells[..m], odd, h)
    ensures Covered(cells, odd, h)
  {
    var k :| 0 <= k < m && Takes(cells[..m], k, odd, h);
    assert Takes(cells, k, odd, h);
  }

  // A register byte behind the end is added although it does not go out.
  lemma BehindIsAdded(cells: seq<Cell>, m: nat, k: nat)
    requires WellFormed(cells) && m <= k < |cells| && IsSummed(cells[k])
    ensures Beyond(cells, Unit(cells[k].h), m) in {1, 0x100, 0x101}
  {
    var h, odd := cells[k].h, k % 2 == 1;
    SelectedOfUnit(cells, false, h, HW_BYTES);
    SelectedOfUnit(cells, true, h, HW_BYTES);
    SelectedOfUnit(cells[..m], false, h, HW_BYTES);
    SelectedOfUnit(cells[..m], true, h, HW_BYTES);
    assert Takes(cells, k, odd, h);
    assert !Covered(cells[..m], odd, h) by {
      if j :| 0 <= j < m && Takes(cells[..m], j, odd, h) {
        assert SameTarget(cells, j, k);
      }
    }
    if Covered(cells[..m], !odd, h) {
      CoveredPrefix(cells, m, !odd, h);
    }
  }

  lemma PrefixGap(cells: seq<Cell>, pkt: seq<Byte>, hw: Registers, m: nat)
    requires WellFormed(cells) && |pkt| == |cells| && m <= |cells|
    ensures Gap(cells[..m], pkt[..m], hw) == 0
  {
    var pre := cells[..m];
    forall j, k | 0 <= j < k < m ensures !SameTarget(pre, j, k) {
      assert !SameTarget(cells, j, k);
    }
    WellFormedGap(pre, pkt[..m], hw);
  }

  lemma NothingBeyond(cells: seq<Cell>, hw: Registers, m: nat)
    requires m <= |cells| && NoneBehind(cells, m)
    ensures Beyond(cells, hw, m) == 0
  {
    SelectedPrefix(cells, m, false, hw, HW_BYTES);
    SelectedPrefix(cells, m, true, hw, HW_BYTES);
  }

  // A packet of a well-formed template verifies, whatever the registers hold, if and only if
  // it reaches over every register byte.
  lemma PacketVerifiesExactly(cells: seq<Cell>, pkt: seq<Byte>, n: nat)
    requires WellFormed(cells) && HasTcpHeader(cells) && IsSegment(cells, pkt, n)
    ensures (forall hw: Registers :: ReceiverSum(cells, pkt, hw, n) == ONES) <==> NoneBehind(cells, TCP + n)
  {
    var m := TCP + n;
    if NoneBehind(cells, m) {
      forall hw: Registers ensures ReceiverSum(cells, pkt, hw, n) == ONES {
        ReceiverAccepts(cells, pkt, hw, n);
        PrefixGap(cells, pkt, hw, m);
        NothingBeyond(cells, hw, m);
      }
    } else {
      var k :| m <= k < |cells| && IsSummed(cells[k]);
      var hw := Unit(cells[k].h);
      ReceiverAccepts(cells, pkt, hw, n);
      PrefixGap(cells, pkt, hw, m);
      BehindIsAdded(cells, m, k);
      assert ReceiverSum(cells, pkt, hw, n) != ONES;
    }
  }
}
