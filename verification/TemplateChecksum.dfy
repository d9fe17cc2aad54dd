// The FPGA fills register bytes into a packet whose checksum was taken over the cleared
// packet, and adds those bytes by two bitmaps. When is that sum the filled packet's sum?
module TemplateChecksum {
  import opened Checksum
  import opened PseudoChecksum
  import opened Template

  type Registers = r: seq<Byte> | |r| == HW_BYTES witness seq(HW_BYTES, _ => 0)

  function ClearedByte(c: Cell, x: Byte): Byte {
    if c.clear then 0 else x
  }

  // clearHwFields
  function Cleared(cells: seq<Cell>, pkt: seq<Byte>): (r: seq<Byte>)
    requires |pkt| == |cells|
    ensures |r| == |cells|
  {
    seq<Byte>(|cells|, k requires 0 <= k < |cells| => ClearedByte(cells[k], pkt[k]))
  }

  function FilledByte(c: Cell, x: Byte, hw: Registers): Byte {
    if c.Hw? && c.summed then hw[c.h] else ClearedByte(c, x)
  }

  // The packet that goes out, but for its TCP checksum.
  function Filled(cells: seq<Cell>, pkt: seq<Byte>, hw: Registers): (r: seq<Byte>)
    requires |pkt| == |cells|
    ensures |r| == |cells|
  {
    seq<Byte>(|cells|, k requires 0 <= k < |cells| => FilledByte(cells[k], pkt[k], hw))
  }

  // The register bytes below n that a bitmap selects.
  ghost function SelectedSum(cells: seq<Cell>, odd: bool, hw: Registers, n: nat): nat
    requires n <= HW_BYTES
  {
    if n == 0 then 0
    else SelectedSum(cells, odd, hw, n - 1) + if Covered(cells, odd, n - 1) then hw[n - 1] else 0
  }

  // What the hardware adds to the sum of the cleared packet.
  ghost function HardwareSum(cells: seq<Cell>, hw: Registers): nat {
    SelectedSum(cells, false, hw, HW_BYTES) + 0x100 * SelectedSum(cells, true, hw, HW_BYTES)
  }

  // How far the hardware's result is from the filled packet's sum.
  ghost function Gap(cells: seq<Cell>, pkt: seq<Byte>, hw: Registers): int
    requires |pkt| == |cells|
  {
    WordSum(Filled(cells, pkt, hw)) - WordSum(Cleared(cells, pkt)) - HardwareSum(cells, hw)
  }

  // The template is right for every packet and every register file.
  ghost predicate ChecksumIsRight(cells: seq<Cell>) {
    forall pkt: seq<Byte>, hw: Registers {:trigger Gap(cells, pkt, hw)} ::
      |pkt| == |cells| ==> Gap(cells, pkt, hw) == 0
  }

  // Every register byte is cleared beforehand and lands at most once on each parity.
  predicate WellFormed(cells: seq<Cell>) {
    && (forall k :: 0 <= k < |cells| && IsSummed(cells[k]) ==> cells[k].clear)
    && (forall j, k :: 0 <= j < k < |cells| ==> !SameTarget(cells, j, k))
  }

  predicate IsSummed(c: Cell) { c.Hw? && c.summed }

  predicate SameTarget(cells: seq<Cell>, j: nat, k: nat)
    requires j < |cells| && k < |cells|
  {
    IsSummed(cells[j]) && IsSummed(cells[k]) && j % 2 == k % 2 && cells[j].h == cells[k].h
  }

  function Weight(k: nat): nat { if k % 2 == 0 then 1 else 0x100 }

  // ----- one more byte -----

  lemma {:induction false} WordSumSnoc(b: seq<Byte>, x: Byte)
    ensures WordSum(b + [x]) == WordSum(b) + Weight(|b|) * x
    decreases |b|
  {
    var c := b + [x];
    if |b| >= 2 {
      assert c[2..] == b[2..] + [x];
      WordSumSnoc(b[2..], x);
    } else if |b| == 1 {
      assert c[2..] == [];
    }
  }

  lemma {:induction false} SelectedNext(cells: seq<Cell>, c: Cell, odd: bool, hw: Registers, n: nat)
    requires n <= HW_BYTES
    ensures SelectedSum(cells + [c], odd, hw, n)
            == SelectedSum(cells, odd, hw, n)
               + if IsSummed(c) && (|cells| % 2 == 1 <==> odd) && c.h < n && !Covered(cells, odd, c.h)
                 then hw[c.h] else 0
    decreases n
  {
    if n > 0 {
      SelectedNext(cells, c, odd, hw, n - 1);
      CoveredNext(cells, c, odd, n - 1);
    }
  }

  // The contribution of a byte appended to the template.
  function GapOf(c: Cell, x: Byte, hw: Registers, seen: bool): int {
    if !IsSummed(c) then 0
    else hw[c.h] - ClearedByte(c, x) - if seen then 0 else hw[c.h]
  }

  lemma GapNext(cells: seq<Cell>, c: Cell, pkt: seq<Byte>, x: Byte, hw: Registers)
    requires |pkt| == |cells|
    ensures Gap(cells + [c], pkt + [x], hw)
            == Gap(cells, pkt, hw)
               + Weight(|cells|) * GapOf(c, x, hw, c.Hw? && Covered(cells, |cells| % 2 == 1, c.h))
  {
    var more, p := cells + [c], pkt + [x];
    assert Filled(more, p, hw) == Filled(cells, pkt, hw) + [FilledByte(c, x, hw)];
    assert Cleared(more, p) == Cleared(cells, pkt) + [ClearedByte(c, x)];
    WordSumSnoc(Filled(cells, pkt, hw), FilledByte(c, x, hw));
    WordSumSnoc(Cleared(cells, pkt), ClearedByte(c, x));
    SelectedNext(cells, c, false, hw, HW_BYTES);
    SelectedNext(cells, c, true, hw, HW_BYTES);
  }

  lemma {:induction false} SelectedNone(odd: bool, hw: Registers, n: nat)
    requires n <= HW_BYTES
    ensures SelectedSum([], odd, hw, n) == 0
    decreases n
  {
    if n > 0 {
      SelectedNone(odd, hw, n - 1);
    }
  }

  lemma EmptyGap(hw: Registers)
    ensures Gap([], [], hw) == 0
  {
    SelectedNone(false, hw, HW_BYTES);
    SelectedNone(true, hw, HW_BYTES);
    assert Filled([], [], hw) == [] && Cleared([], []) == [];
  }

  // ----- well formed templates are right -----

  lemma {:induction false} WellFormedGap(cells: seq<Cell>, pkt: seq<Byte>, hw: Registers)
    requires WellFormed(cells) && |pkt| == |cells|
    ensures Gap(cells, pkt, hw) == 0
    decreases |cells|
  {
    if cells == [] {
      EmptyGap(hw);
    } else {
      var n := |cells| - 1;
      var c, x := cells[n], pkt[n];
      assert cells == cells[..n] + [c] && pkt == pkt[..n] + [x];
      forall j, k | 0 <= j < k < n ensures !SameTarget(cells[..n], j, k) {
        assert !SameTarget(cells, j, k);
      }
      WellFormedGap(cells[..n], pkt[..n], hw);
      GapNext(cells[..n], c, pkt[..n], x, hw);
      if IsSummed(c) && Covered(cells[..n], n % 2 == 1, c.h) {
        var k :| 0 <= k < n && Takes(cells[..n], k, n % 2 == 1, c.h);
        assert SameTarget(cells, k, n);
        assert false;
      }
    }
  }

  // ----- and no others -----

  // With registers of zero, an uncleared register byte of one leaves a gap.
  lemma {:induction false} UnclearedGap(cells: seq<Cell>, pkt: seq<Byte>, hw: Registers)
    requires |pkt| == |cells| && forall h :: 0 <= h < HW_BYTES ==> hw[h] == 0
    ensures Gap(cells, pkt, hw) <= 0
    ensures (exists k :: 0 <= k < |cells| && IsSummed(cells[k]) && !cells[k].clear && pkt[k] > 0) ==>
              Gap(cells, pkt, hw) < 0
    decreases |cells|
  {
    if cells == [] {
      EmptyGap(hw);
    } else {
      var n := |cells| - 1;
      assert cells == cells[..n] + [cells[n]] && pkt == pkt[..n] + [pkt[n]];
      UnclearedGap(cells[..n], pkt[..n], hw);
      GapNext(cells[..n], cells[n], pkt[..n], pkt[n], hw);
      if k :| 0 <= k < |cells| && IsSummed(cells[k]) && !cells[k].clear && pkt[k] > 0 {
        if k < n {
          assert IsSummed(cells[..n][k]);
        }
      }
    }
  }

  // With a packet of zeros, a register byte of one that lands twice on a parity leaves a gap.
  lemma {:induction false} RepeatedGap(cells: seq<Cell>, pkt: seq<Byte>, hw: Registers)
    requires |pkt| == |cells| && forall k :: 0 <= k < |pkt| ==> pkt[k] == 0
    ensures Gap(cells, pkt, hw) >= 0
    ensures (exists j, k :: 0 <= j < k < |cells| && SameTarget(cells, j, k) && hw[cells[k].h] > 0) ==>
              Gap(cells, pkt, hw) > 0
    decreases |cells|
  {
    if cells == [] {
      EmptyGap(hw);
    } else {
      var n := |cells| - 1;
      var c := cells[n];
      assert cells == cells[..n] + [c] && pkt == pkt[..n] + [pkt[n]];
      RepeatedGap(cells[..n], pkt[..n], hw);
      GapNext(cells[..n], c, pkt[..n], pkt[n], hw);
      if j, k :| 0 <= j < k < |cells| && SameTarget(cells, j, k) && hw[cells[k].h] > 0 {
        if k < n {
          assert SameTarget(cells[..n], j, k);
        } else {
          assert Takes(cells[..n], j, n % 2 == 1, c.h);
        }
      }
    }
  }

  // The hardware's sum is the filled packet's sum, for every packet and every register file,
  // if and only if the template is well formed.
  lemma HardwareFillIsRight(cells: seq<Cell>)
    ensures ChecksumIsRight(cells) <==> WellFormed(cells)
  {
    if WellFormed(cells) {
      forall pkt: seq<Byte>, hw: Registers | |pkt| == |cells| ensures Gap(cells, pkt, hw) == 0 {
        WellFormedGap(cells, pkt, hw);
      }
    } else if k :| 0 <= k < |cells| && IsSummed(cells[k]) && !cells[k].clear {
      var pkt := seq<Byte>(|cells|, _ => 1);
      var hw: Registers := seq<Byte>(HW_BYTES, _ => 0);
      UnclearedGap(cells, pkt, hw);
      assert Gap(cells, pkt, hw) != 0;
    } else {
      var j, k :| 0 <= j < k < |cells| && SameTarget(cells, j, k);
      var pkt := seq<Byte>(|cells|, _ => 0);
      var hw: Registers := seq<Byte>(HW_BYTES, _ => 1);
      RepeatedGap(cells, pkt, hw);
      assert Gap(cells, pkt, hw) != 0;
    }
  }

  // ----- the TCP checksum on the wire -----

  // Nothing the hardware fills in lies before the TCP header, and the checksum field is
  // cleared and left to the checksum.
  predicate HasTcpHeader(cells: seq<Cell>) {
    && TCP + 20 <= |cells|
    && (forall k :: 0 <= k < TCP ==> !IsSummed(cells[k]))
    && (forall k :: TCP + 16 <= k < TCP + 18 ==> !IsSummed(cells[k]) && cells[k].clear)
  }

  // No register byte lies at m or behind it.
  predicate NoneBehind(cells: seq<Cell>, m: nat) {
    forall k :: m <= k < |cells| ==> !IsSummed(cells[k])
  }

  // Register bytes, and the checksum field, lie where the TCP segment of n bytes is.
  predicate TcpShaped(cells: seq<Cell>, n: nat) {
    HasTcpHeader(cells) && 20 <= n && TCP + n <= |cells| && NoneBehind(cells, TCP + n)
  }

  lemma {:induction false} SelectedPrefix(cells: seq<Cell>, m: nat, odd: bool, hw: Registers, n: nat)
    requires n <= HW_BYTES && m <= |cells| && NoneBehind(cells, m)
    ensures SelectedSum(cells[..m], odd, hw, n) == SelectedSum(cells, odd, hw, n)
    decreases n
  {
    if n > 0 {
      SelectedPrefix(cells, m, odd, hw, n - 1);
      var h: Byte := n - 1;
      if k :| 0 <= k < |cells| && Takes(cells, k, odd, h) {
        assert Takes(cells[..m], k, odd, h);
      }
      if k :| 0 <= k < m && Takes(cells[..m], k, odd, h) {
        assert Takes(cells, k, odd, h);
      }
    }
  }

  // The partial sum computed over the cleared image, plus what the hardware adds, is the
  // reference sum of the segment that goes out.
  lemma PartialSumCompletes(cells: seq<Cell>, pkt: seq<Byte>, hw: Registers, n: nat)
    requires WellFormed(cells) && |pkt| == |cells| && TcpShaped(cells, n) && n <= ONES
    ensures PseudoSum(pkt[IP..TCP], Cleared(cells, pkt)[TCP..TCP + n]) + HardwareSum(cells, hw)
            == PseudoSum(pkt[IP..TCP], Filled(cells, pkt, hw)[TCP..TCP + n])
  {
    var m := TCP + n;
    var pre, p := cells[..m], pkt[..m];
    var c, f := Cleared(cells, pkt), Filled(cells, pkt, hw);
    forall j, k | 0 <= j < k < m ensures !SameTarget(pre, j, k) {
      assert !SameTarget(cells, j, k);
    }
    WellFormedGap(pre, p, hw);
    SelectedPrefix(cells, m, false, hw, HW_BYTES);
    SelectedPrefix(cells, m, true, hw, HW_BYTES);
    assert Cleared(pre, p) == c[..m] && Filled(pre, p, hw) == f[..m];
    WordSumSplit(c[..m], TCP);
    WordSumSplit(f[..m], TCP);
    assert c[..m][..TCP] == f[..m][..TCP];
    assert c[..m][TCP..] == c[TCP..m] && f[..m][TCP..] == f[TCP..m];
    PseudoSumSplit(pkt[IP..TCP], c[TCP..m]);
    PseudoSumSplit(pkt[IP..TCP], f[TCP..m]);
  }

  // So the folded complement that the FPGA writes verifies at the receiver.
  lemma HardwareChecksumVerifies(cells: seq<Cell>, pkt: seq<Byte>, hw: Registers, n: nat)
    requires WellFormed(cells) && |pkt| == |cells| && TcpShaped(cells, n) && n <= ONES
    ensures var ip, seg := pkt[IP..TCP], Filled(cells, pkt, hw)[TCP..TCP + n];
            var partial := PseudoSum(ip, Cleared(cells, pkt)[TCP..TCP + n]);
            Fold(PseudoSum(ip, PutWord(seg, 16, ONES - Fold(partial + HardwareSum(cells, hw))))) == ONES
  {
    PartialSumCompletes(cells, pkt, hw, n);
    var f := Filled(cells, pkt, hw);
    assert f[TCP + 16] == 0 && f[TCP + 17] == 0;
    TcpChecksumVerifies(pkt[IP..TCP], f[TCP..TCP + n]);
  }
}
