// The packet that updateRx pushes into lwIP while it holds a segment back: the headers of the
// held segment, cut to an empty one that acknowledges what lwIP has sent.
module InsertedAck {
  import opened Arith
  import opened Bytes
  import opened Checksum
  import opened PacketOnWire
  import opened PseudoChecksum

  function NetDouble(w: nat): (b: seq<Byte>)
    requires w < TWO32
    ensures |b| == 4 && AckNo(b) == w
  {
    NetBytes(w / 0x1_0000) + NetBytes(w % 0x1_0000)
  }

  // The number in four bytes.
  function AckNo(b: seq<Byte>): nat
    requires |b| == 4
  {
    0x1_0000 * NetWord(b[0], b[1]) + NetWord(b[2], b[3])
  }

  // Highest byte first.
  lemma AckNoBytes(b: seq<Byte>)
    requires |b| == 4
    ensures b[0] == AckNo(b) / 0x100_0000 && b[1] == AckNo(b) / 0x1_0000 % 0x100
    ensures b[2] == AckNo(b) / 0x100 % 0x100 && b[3] == AckNo(b) % 0x100
  {
    var x: nat := b[0];
    var y := 0x100 * x + b[1];
    var z := 0x100 * y + b[2];
    assert AckNo(b) == 0x100 * z + b[3];
    assert AckNo(b) / 0x100 == z && z / 0x100 == y && y / 0x100 == x;
    assert AckNo(b) / 0x1_0000 == y && AckNo(b) / 0x100_0000 == x;
  }

  // IP length and checksum, acknowledgement, TCP checksum.
  predicate Rewritten(i: nat) {
    16 <= i < 18 || 24 <= i < 26 || 42 <= i < 46 || 50 <= i < 52
  }

  // In bytes, with the options.
  function TcpHeaderLen(pkt: seq<Byte>): nat
    requires HDRS <= |pkt|
  {
    pkt[TCP + 12] / 16 * 4
  }

  // insertEmptyRemoteAck. Both checksums verify, and the packet acknowledges seqno; but the
  // header length is the held segment's, so it runs past the packet if that had options.
  method InsertEmptyRemoteAck(seqno: nat, pkt: seq<Byte>) returns (r: seq<Byte>)
    requires HDRS <= |pkt|
    ensures |r| == HDRS && IpVerifies(r) && (IsTcpPacket(pkt) ==> IsTcpPacket(r) && TcpVerifies(r))
    ensures AckNo(r[42..46]) == seqno % TWO32
    ensures forall i :: 0 <= i < HDRS && !Rewritten(i) ==> r[i] == pkt[i]
    ensures TCP + TcpHeaderLen(r) <= HDRS <==> TcpHeaderLen(pkt) <= 20
  {
    r := Put(pkt[..HDRS], IP + 10, [0, 0]);
    r := Put(r, IP + 2, NetBytes(40));
    r := Put(r, TCP + 16, [0, 0]);
    var len := NetBytes(40);
    assert r[IP + 2] == len[0] && r[IP + 3] == len[1];
    r := WithIpSum(r);
    ghost var ip := r[IP..TCP];
    assert IpLen(ip) == 40;
    PutMisses(r, TCP + 8, NetDouble(seqno % TWO32), IP, TCP);
    r := Put(r, TCP + 8, NetDouble(seqno % TWO32));
    r := WithTcpSum(r);
    assert r[IP..TCP] == ip;
  }

  method WithIpSum(pkt: seq<Byte>) returns (r: seq<Byte>)
    requires |pkt| == HDRS && pkt[IP + 10] == 0 && pkt[IP + 11] == 0
    ensures |r| == HDRS && Fold(WordSum(r[IP..TCP])) == ONES
    ensures forall i :: 0 <= i < HDRS && !(24 <= i < 26) ==> r[i] == pkt[i]
  {
    var ip := pkt[IP..TCP];
    var sum := Csum(ip);
    r := PutWord(pkt, IP + 10, sum);
    InsertedChecksumVerifies(ip, 10);
    assert r[IP..TCP] == PutWord(ip, 10, sum);
  }

  method WithTcpSum(pkt: seq<Byte>) returns (r: seq<Byte>)
    requires |pkt| == HDRS && pkt[TCP + 16] == 0 && pkt[TCP + 17] == 0 && IpLen(pkt[IP..TCP]) == 40
    ensures |r| == HDRS && (IsTcpPacket(r) ==> TcpVerifies(r))
    ensures forall i :: 0 <= i < HDRS && !(50 <= i < 52) ==> r[i] == pkt[i]
    ensures r[IP..TCP] == pkt[IP..TCP]
  {
    var ip, seg := pkt[IP..TCP], pkt[TCP..];
    var sum := EkaTcpCsum(ip, seg);
    r := PutWord(pkt, TCP + 16, sum);
    assert Segment(ip, seg) == seg;
    TcpChecksumVerifies(ip, seg);
    assert r[TCP..] == PutWord(seg, 16, sum) && r[IP..TCP] == ip;
  }
}
