// The packet that leaves: the FPGA fills register bytes into what software handed over and
// completes the TCP checksum from the partial sum and the bitmaps.
module PacketOnWire {
  import opened Checksum
  import opened PseudoChecksum
  import opened Template
  import opened TemplateChecksum
  import opened TemplateReceiver

  // Packet bytes with a right IP header and cleared register bytes, and the partial sum over
  // them.
  predicate Handed(image: seq<Byte>, cells: seq<Cell>, pseudo: nat) {
    && TCP + 20 <= |image| <= ONES
    && IpVerifies(image)
    && (forall k :: 0 <= k < |image| && k < |cells| && cells[k].clear ==> image[k] == 0)
    && pseudo == PseudoSum(image[IP..TCP], image[TCP..])
  }

  predicate IpVerifies(pkt: seq<Byte>)
    requires TCP + 20 <= |pkt|
  {
    Fold(WordSum(pkt[IP..TCP])) == ONES && IP + IpLen(pkt[IP..TCP]) == |pkt|
  }

  // An IPv4 header without options, and the protocol number of TCP.
  predicate IsTcpPacket(pkt: seq<Byte>)
    requires TCP + 20 <= |pkt|
  {
    pkt[14] == 0x45 && pkt[23] == 6
  }

  function FilledIn(image: seq<Byte>, cells: seq<Cell>, hw: Registers): (pkt: seq<Byte>)
    ensures |pkt| == |image|
  {
    seq<Byte>(|image|, k requires 0 <= k < |image| =>
      if k < |cells| then FilledByte(cells[k], image[k], hw) else image[k])
  }

  ghost function Completed(image: seq<Byte>, cells: seq<Cell>, pseudo: nat, hw: Registers): (pkt: seq<Byte>)
    requires TCP + 20 <= |image|
    ensures |pkt| == |image|
  {
    PutWord(FilledIn(image, cells, hw), TCP + 16, ONES - Fold(pseudo + HardwareSum(cells, hw)))
  }

  // The receiver's sum; the protocol in its pseudo header is the packet's own.
  predicate TcpVerifies(pkt: seq<Byte>)
    requires TCP + 20 <= |pkt| <= ONES
  {
    Fold(WordSum(PseudoHeader(pkt[IP..TCP], pkt[23], |pkt| - TCP) + pkt[TCP..])) == ONES
  }

  // The receiver takes it for a TCP packet and accepts the IP header and the TCP segment,
  // whatever the registers hold.
  ghost predicate AlwaysVerifies(image: seq<Byte>, cells: seq<Cell>, pseudo: nat)
    requires TCP + 20 <= |image| <= ONES
  {
    forall hw: Registers ::
      var pkt := Completed(image, cells, pseudo, hw);
      IsTcpPacket(pkt) && IpVerifies(pkt) && TcpVerifies(pkt)
  }

  // ----- template and packet at one length -----

  function PaddedCells(cells: seq<Cell>, m: nat): (r: seq<Cell>)
    ensures |r| == if |cells| < m then m else |cells|
  {
    if |cells| < m then cells + seq(m - |cells|, _ => Fixed(false)) else cells
  }

  function PaddedImage(image: seq<Byte>, n: nat): (r: seq<Byte>)
    ensures |r| == if |image| < n then n else |image|
  {
    if |image| < n then image + seq<Byte>(n - |image|, _ => 0) else image
  }

  lemma PaddedTemplate(cells: seq<Cell>, m: nat, hw: Registers)
    requires HasTcpHeader(cells)
    ensures var p := PaddedCells(cells, m);
            && HasTcpHeader(p) && HardwareSum(p, hw) == HardwareSum(cells, hw)
            && (NoneBehind(p, m) <==> NoneBehind(cells, m)) && (WellFormed(cells) ==> WellFormed(p))
  {
    var p := PaddedCells(cells, m);
    assert p[..|cells|] == cells;
    SelectedPrefix(p, |cells|, false, hw, HW_BYTES);
    SelectedPrefix(p, |cells|, true, hw, HW_BYTES);
    assert forall k :: 0 <= k < |cells| ==> p[k] == cells[k];
    forall j, k | 0 <= j < k < |p| && WellFormed(cells) ensures !SameTarget(p, j, k) {
      assert k < |cells| ==> !SameTarget(cells, j, k);
    }
  }

  lemma CompletedHeader(image: seq<Byte>, cells: seq<Cell>, pseudo: nat, hw: Registers)
    requires HasTcpHeader(cells) && Handed(image, cells, pseudo)
    ensures Completed(image, cells, pseudo, hw)[..TCP] == image[..TCP]
    ensures Completed(image, cells, pseudo, hw)[IP..TCP] == image[IP..TCP]
  {
    var pkt := Completed(image, cells, pseudo, hw);
    forall k | 0 <= k < TCP ensures pkt[k] == image[k] {
      assert !IsSummed(cells[k]);
    }
  }

  lemma CompletedSegment(image: seq<Byte>, cells: seq<Cell>, pseudo: nat, hw: Registers)
    requires TCP + 20 <= |image|
    ensures Completed(image, cells, pseudo, hw)[TCP..]
            == PutWord(FilledIn(image, cells, hw)[TCP..], 16, ONES - Fold(pseudo + HardwareSum(cells, hw)))
  {
  }

  lemma PaddedFilling(image: seq<Byte>, cells: seq<Cell>, pseudo: nat, hw: Registers)
    requires HasTcpHeader(cells) && Handed(image, cells, pseudo)
    ensures var m := |image|;
            var p, pkt := PaddedCells(cells, m), PaddedImage(image, |cells|);
            && IsSegment(p, pkt, m - TCP) && pkt[IP..TCP] == image[IP..TCP]
            && FilledSegment(p, pkt, hw, m - TCP) == FilledIn(image, cells, hw)[TCP..]
            && Cleared(p, pkt)[TCP..m] == image[TCP..]
  {
    var m := |image|;
    var p, pkt := PaddedCells(cells, m), PaddedImage(image, |cells|);
    forall k | 0 <= k < m
      ensures Filled(p, pkt, hw)[k] == FilledIn(image, cells, hw)[k] && Cleared(p, pkt)[k] == image[k]
    {
      assert pkt[k] == image[k];
      assert p[k] == if k < |cells| then cells[k] else Fixed(false);
    }
    assert Filled(p, pkt, hw)[..m] == FilledIn(image, cells, hw);
    assert Cleared(p, pkt)[..m] == image;
  }

  lemma CompletedReceiver(image: seq<Byte>, cells: seq<Cell>, pseudo: nat, hw: Registers)
    requires HasTcpHeader(cells) && Handed(image, cells, pseudo) && IsTcpPacket(image)
    ensures var m := |image|;
            var p, pkt := PaddedCells(cells, m), PaddedImage(image, |cells|);
            && IsSegment(p, pkt, m - TCP) && IsTcpPacket(Completed(image, cells, pseudo, hw))
            && (TcpVerifies(Completed(image, cells, pseudo, hw)) <==> ReceiverSum(p, pkt, hw, m - TCP) == ONES)
  {
    PaddedFilling(image, cells, pseudo, hw);
    PaddedTemplate(cells, |image|, hw);
    CompletedHeader(image, cells, pseudo, hw);
    CompletedSegment(image, cells, pseudo, hw);
    SameHeader(Completed(image, cells, pseudo, hw), image);
  }

  lemma SameHeader(pkt: seq<Byte>, image: seq<Byte>)
    requires TCP + 20 <= |pkt| == |image| && pkt[..TCP] == image[..TCP]
    ensures pkt[14] == image[14] && pkt[23] == image[23]
  {
    assert pkt[14] == pkt[..TCP][14] && pkt[23] == pkt[..TCP][23];
    assert image[14] == image[..TCP][14] && image[23] == image[..TCP][23];
  }

  // What was handed over verifies for every register file if and only if its header is that
  // of a TCP packet and the packet reaches over every register byte of its template.
  lemma CompletedVerifiesExactly(image: seq<Byte>, cells: seq<Cell>, pseudo: nat)
    requires WellFormed(cells) && HasTcpHeader(cells) && Handed(image, cells, pseudo)
    ensures AlwaysVerifies(image, cells, pseudo) <==> IsTcpPacket(image) && NoneBehind(cells, |image|)
  {
    if IsTcpPacket(image) {
      TcpPacketVerifiesExactly(image, cells, pseudo);
    } else {
      CompletedHeader(image, cells, pseudo, NoRegisters());
      SameHeader(Completed(image, cells, pseudo, NoRegisters()), image);
      assert !IsTcpPacket(Completed(image, cells, pseudo, NoRegisters()));
    }
  }

  lemma TcpPacketVerifiesExactly(image: seq<Byte>, cells: seq<Cell>, pseudo: nat)
    requires WellFormed(cells) && HasTcpHeader(cells) && Handed(image, cells, pseudo) && IsTcpPacket(image)
    ensures AlwaysVerifies(image, cells, pseudo) <==> NoneBehind(cells, |image|)
  {
    var n := |image| - TCP;
    var p, pkt := PaddedCells(cells, |image|), PaddedImage(image, |cells|);
    PaddedTemplate(cells, |image|, NoRegisters());
    CompletedReceiver(image, cells, pseudo, NoRegisters());
    PacketVerifiesExactly(p, pkt, n);
    if NoneBehind(cells, |image|) {
      forall hw: Registers
        ensures IsTcpPacket(Completed(image, cells, pseudo, hw)) && IpVerifies(Completed(image, cells, pseudo, hw))
        ensures TcpVerifies(Completed(image, cells, pseudo, hw))
      {
        CompletedHeader(image, cells, pseudo, hw);
        CompletedReceiver(image, cells, pseudo, hw);
        assert ReceiverSum(p, pkt, hw, n) == ONES;
      }
    } else {
      var hw: Registers :| ReceiverSum(p, pkt, hw, n) != ONES;
      CompletedReceiver(image, cells, pseudo, hw);
      assert !TcpVerifies(Completed(image, cells, pseudo, hw));
    }
  }
}
