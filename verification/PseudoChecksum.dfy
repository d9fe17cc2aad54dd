// TCP and UDP checksums over the pseudo header, and the packets built with them.
module PseudoChecksum {
  import opened Arith
  import opened Checksum
  import opened ChecksumSse

  const PROTO_IGMP: Byte := 2
  const PROTO_TCP: Byte := 6
  const PROTO_UDP: Byte := 17
  const IP_HDR := 20
  const IP := 14    // offset of the IP header
  const TCP := 34   // offset of the TCP header
  const HDRS := 54  // Ethernet, IP and TCP headers

  function NetWord(x: Byte, y: Byte): Word16 { HostWord(y, x) }

  // The two bytes of a number in network order.
  function NetBytes(w: Word16): (b: seq<Byte>)
    ensures |b| == 2 && NetWord(b[0], b[1]) == w
  {
    [w / 0x100, w % 0x100]
  }

  function IpLen(ip: seq<Byte>): Word16
    requires |ip| == IP_HDR
  {
    NetWord(ip[2], ip[3])
  }

  // Section 3.1 of RFC 9293: addresses, zero, protocol, segment length.
  function PseudoHeader(ip: seq<Byte>, proto: Byte, len: Word16): (h: seq<Byte>)
    requires |ip| == IP_HDR
    ensures |h| == 12 && h[..4] == ip[12..16] && h[4..8] == ip[16..20]
    ensures h[8] == 0 && h[9] == proto && h[10] as int == len / 0x100 && h[11] as int == len % 0x100
  {
    ip[12..20] + [0, proto] + NetBytes(len)
  }

  // The reference: the word sum of pseudo header and segment.
  function PseudoSum(ip: seq<Byte>, seg: seq<Byte>): nat
    requires |ip| == IP_HDR && |seg| <= ONES
  {
    WordSum(PseudoHeader(ip, PROTO_TCP, |seg|) + seg)
  }

  lemma PseudoSumSplit(ip: seq<Byte>, seg: seq<Byte>)
    requires |ip| == IP_HDR && |seg| <= ONES
    ensures PseudoSum(ip, seg) == WordSum(PseudoHeader(ip, PROTO_TCP, |seg|)) + WordSum(seg)
  {
    var h := PseudoHeader(ip, PROTO_TCP, |seg|);
    WordSumSplit(h + seg, 12);
    assert (h + seg)[..12] == h && (h + seg)[12..] == seg;
  }

  lemma PseudoHeaderSum(ip: seq<Byte>, proto: Byte, len: Word16)
    requires |ip| == IP_HDR
    ensures WordSum(PseudoHeader(ip, proto, len))
            == HostWord(ip[12], ip[13]) + HostWord(ip[14], ip[15]) + HostWord(ip[16], ip[17])
               + HostWord(ip[18], ip[19]) + Swap16(proto) + Swap16(len)
    ensures NetSum(PseudoHeader(ip, proto, len))
            == NetWord(ip[12], ip[13]) + NetWord(ip[14], ip[15]) + NetWord(ip[16], ip[17])
               + NetWord(ip[18], ip[19]) + proto + len
  {
    var h := PseudoHeader(ip, proto, len);
    SixWords(h);
    SwapIsNetBytes(proto);
    SwapIsNetBytes(len);
  }

  lemma SwapIsNetBytes(w: Word16)
    ensures Swap16(w) == HostWord(NetBytes(w)[0], NetBytes(w)[1])
    ensures w == NetWord(NetBytes(w)[0], NetBytes(w)[1])
  {
  }

  lemma SixWords(h: seq<Byte>)
    requires |h| == 12
    ensures WordSum(h) == HostWord(h[0], h[1]) + HostWord(h[2], h[3]) + HostWord(h[4], h[5])
                          + HostWord(h[6], h[7]) + HostWord(h[8], h[9]) + HostWord(h[10], h[11])
    ensures NetSum(h) == NetWord(h[0], h[1]) + NetWord(h[2], h[3]) + NetWord(h[4], h[5])
                         + NetWord(h[6], h[7]) + NetWord(h[8], h[9]) + NetWord(h[10], h[11])
  {
    WordSumNext(h, 0);
    WordSumNext(h, 2);
    WordSumNext(h, 4);
    WordSumNext(h, 6);
    WordSumNext(h, 8);
    WordSumNext(h, 10);
    assert h[0..] == h && h[12..] == [];
  }

  lemma WordSumNext(b: seq<Byte>, i: nat)
    requires i + 2 <= |b|
    ensures WordSum(b[i..]) == HostWord(b[i], b[i + 1]) + WordSum(b[i + 2..])
    ensures NetSum(b[i..]) == NetWord(b[i], b[i + 1]) + NetSum(b[i + 2..])
  {
    assert b[i..][2..] == b[i + 2..];
  }

  // calc_pseudo_ipHdrPart
  function CalcPseudoIpHdrPart(ip: seq<Byte>): (r: nat)
    requires |ip| == IP_HDR && IpLen(ip) >= IP_HDR
    ensures r == WordSum(PseudoHeader(ip, PROTO_TCP, IpLen(ip) - IP_HDR))
  {
    PseudoHeaderSum(ip, PROTO_TCP, IpLen(ip) - IP_HDR);
    HostWord(ip[12], ip[13]) + HostWord(ip[14], ip[15]) + HostWord(ip[16], ip[17])
    + HostWord(ip[18], ip[19]) + Swap16(PROTO_TCP) + Swap16(IpLen(ip) - IP_HDR)
  }

  // What the IP header says about the segment that follows it in memory.
  predicate HasSegment(ip: seq<Byte>, mem: seq<Byte>) {
    |ip| == IP_HDR && IP_HDR <= IpLen(ip) && IpLen(ip) - IP_HDR <= |mem|
  }

  function Segment(ip: seq<Byte>, mem: seq<Byte>): seq<Byte>
    requires HasSegment(ip, mem)
  {
    mem[..IpLen(ip) - IP_HDR]
  }

  // ekaPseudoTcpCsum: exact for segments that the halving blocks can sum.
  method EkaPseudoTcpCsum(ip: seq<Byte>, mem: seq<Byte>) returns (pseudo: nat)
    requires HasSegment(ip, mem)
    ensures pseudo < TWO32
    ensures |Segment(ip, mem)| <= 2047 ==> pseudo == PseudoSum(ip, Segment(ip, mem))
  {
    var seg := mem[..IpLen(ip) - IP_HDR];
    pseudo := CalcPseudoIpHdrPart(ip);
    var rest := PseudoCsumUnrolled(seg);
    pseudo := pseudo + rest;
    PseudoSumSplit(ip, seg);
    WordSumBound(seg[..if |seg| <= 2047 then |seg| else 2046]);
    if |seg| <= 2047 {
      assert seg[..|seg|] == seg;
    }
  }

  // calculate_pseudo_tcp_checksum_old
  method CalculatePseudoTcpChecksumOld(ip: seq<Byte>, mem: seq<Byte>) returns (sum: nat)
    requires HasSegment(ip, mem)
    ensures sum == PseudoSum(ip, Segment(ip, mem)) < TWO32
  {
    var seg := mem[..IpLen(ip) - IP_HDR];
    sum := CalcPseudoIpHdrPart(ip);
    var rest := PseudoCsum(seg);
    sum := sum + rest;
    PseudoSumSplit(ip, seg);
    WordSumBound(seg);
  }

  // calc_pseudo_csum, over a copy of pseudo header, TCP header and payload.
  method CalcPseudoCsum(ip: seq<Byte>, tcp: seq<Byte>, payload: seq<Byte>) returns (pcsum: nat)
    requires |ip| == IP_HDR && |tcp| == 20 && 12 + 20 + |payload| <= 2000
    ensures pcsum == PseudoSum(ip, tcp + payload)
  {
    var pseudoPacket := PseudoHeader(ip, PROTO_TCP, 20 + |payload|) + tcp + payload;
    assert pseudoPacket == PseudoHeader(ip, PROTO_TCP, 20 + |payload|) + (tcp + payload);
    pcsum := PseudoCsum(pseudoPacket);
  }

  // calcEmptyPktPseudoCsum
  method CalcEmptyPktPseudoCsum(ip: seq<Byte>, tcp: seq<Byte>) returns (pcsum: nat)
    requires |ip| == IP_HDR && |tcp| == 20
    ensures pcsum == PseudoSum(ip, tcp)
  {
    pcsum := PseudoCsum(PseudoHeader(ip, PROTO_TCP, 20) + tcp);
  }

  // ekaPseudoTcpCsum_intel: the vector sum, in network order. It is a different number that
  // folds to the byte swap of the others.
  method EkaPseudoTcpCsumIntel(ip: seq<Byte>, mem: seq<Byte>) returns (sum: nat)
    requires HasSegment(ip, mem) && IpLen(ip) - IP_HDR + 15 <= |mem|
    ensures sum < TWO32
    ensures Fold(sum) == Swap16(Fold(PseudoSum(ip, Segment(ip, mem))))
  {
    var len := IpLen(ip) - IP_HDR;
    sum := NetWord(ip[12], ip[13]) + NetWord(ip[14], ip[15]) + NetWord(ip[16], ip[17])
           + NetWord(ip[18], ip[19]) + PROTO_TCP + len;
    var rest := CsumOc16Sse(mem, len);
    sum := sum + rest;
    var h := PseudoHeader(ip, PROTO_TCP, len);
    PseudoHeaderSum(ip, PROTO_TCP, len);
    NetSumSplit(h + mem[..len], 12);
    assert (h + mem[..len])[..12] == h && (h + mem[..len])[12..] == mem[..len];
    ByteOrderIndependence(h + mem[..len]);
    NetSumBound(mem[..len]);
  }

  // ekaTcpCsum
  method EkaTcpCsum(ip: seq<Byte>, mem: seq<Byte>) returns (r: Word16)
    requires HasSegment(ip, mem) && |Segment(ip, mem)| <= 2047
    ensures r == ONES - Fold(PseudoSum(ip, Segment(ip, mem)))
  {
    var pseudo := EkaPseudoTcpCsum(ip, mem);
    r := FoldPseudoCsum(pseudo);
  }

  // A receiver's sum over pseudo header and segment is all ones once the computed checksum
  // stands in the segment's zeroed checksum field.
  lemma TcpChecksumVerifies(ip: seq<Byte>, seg: seq<Byte>)
    requires |ip| == IP_HDR && 20 <= |seg| <= ONES && seg[16] == 0 && seg[17] == 0
    ensures Fold(PseudoSum(ip, PutWord(seg, 16, ONES - Fold(PseudoSum(ip, seg))))) == ONES
  {
    var h := PseudoHeader(ip, PROTO_TCP, |seg|);
    var w: Word16 := ONES - Fold(PseudoSum(ip, seg));
    InsertedChecksumVerifies(h + seg, 28);
    assert PutWord(h + seg, 28, w) == h + PutWord(seg, 16, w);
  }

  // ----- UDP -----

  // The word sum that RFC 768 takes, with the length cut to the 16 bits of its field.
  function UdpSum(ip: seq<Byte>, udp: seq<Byte>): nat
    requires |ip| == IP_HDR
  {
    WordSum(PseudoHeader(ip, PROTO_UDP, |udp| % 0x1_0000) + udp)
  }

  // What RFC 768 transmits: a complement of zero goes out as all ones, since zero says that
  // there is no checksum.
  function Rfc768(ip: seq<Byte>, udp: seq<Byte>): (r: Word16)
    requires |ip| == IP_HDR && |udp| <= ONES
    ensures r != 0
  {
    var c := ONES - Fold(UdpSum(ip, udp));
    if c == 0 then ONES else c
  }

  // udp_checksum: the running sum is folded whenever its top bit is set, so no addition
  // overflows 32 bits, whatever the length. The result is the RFC's if and only if the sum
  // is no multiple of 65535; otherwise it is zero.
  method UdpChecksum(udp: seq<Byte>, ip: seq<Byte>) returns (r: Word16)
    requires |ip| == IP_HDR
    ensures r == ONES - Fold(UdpSum(ip, udp))
    ensures |udp| <= ONES ==> (r == Rfc768(ip, udp) <==> UdpSum(ip, udp) % ONES != 0)
    ensures r == 0 <==> UdpSum(ip, udp) % ONES == 0
  {
    var sum: nat, pos: nat, len: nat := 0, 0, |udp|;
    ghost var carried := 0;
    while len > 1
      invariant pos + len == |udp| && pos % 2 == 0
      invariant sum < 0x8000_0000 && carried >= 0
      invariant sum + carried * ONES == WordSum(udp[..pos])
    {
      WordSumNextWord(udp, pos);
      sum := sum + HostWord(udp[pos], udp[pos + 1]);
      assert sum < TWO32;
      if sum >= 0x8000_0000 {
        CarryOnce(sum);
        carried := carried + sum / 0x1_0000;
        sum := sum % 0x1_0000 + sum / 0x1_0000;
      }
      pos, len := pos + 2, len - 2;
    }
    if len % 2 == 1 {
      WordSumSplit(udp, pos);
      sum := sum + udp[pos];
    } else {
      assert udp[..pos] == udp;
    }
    assert sum + carried * ONES == WordSum(udp);
    sum := sum + HostWord(ip[12], ip[13]) + HostWord(ip[14], ip[15]);
    sum := sum + HostWord(ip[16], ip[17]) + HostWord(ip[18], ip[19]);
    sum := sum + Swap16(PROTO_UDP) + Swap16(|udp| % 0x1_0000);
    assert sum < TWO32;
    UdpSumSplit(udp, ip);
    FoldDropsCarries(sum, carried);
    r := FoldPseudoCsum(sum);
    UdpSumPositive(ip, udp);
    FoldIsOnes(UdpSum(ip, udp));
  }

  lemma UdpSumPositive(ip: seq<Byte>, udp: seq<Byte>)
    requires |ip| == IP_HDR
    ensures UdpSum(ip, udp) > 0
  {
    UdpSumSplit(udp, ip);
  }

  lemma FoldIsOnes(s: nat)
    requires s > 0
    ensures Fold(s) == ONES <==> s % ONES == 0
  {
    var q, r := s / ONES, s % ONES;
    if r == 0 {
      FoldUnique(s, ONES, q - 1);
    } else {
      FoldUnique(s, r, q);
    }
  }

  // A datagram that goes out as if it had no checksum, where the RFC sends all ones.
  lemma UdpChecksumCanBeZero()
    ensures var ip: seq<Byte>, udp: seq<Byte> := seq(IP_HDR, _ => 0), [0, 0, 0xFF, 0xE6, 0, 0, 0, 0];
            UdpSum(ip, udp) == ONES && Rfc768(ip, udp) == ONES != ONES - Fold(UdpSum(ip, udp))
  {
    var ip: seq<Byte>, udp: seq<Byte> := seq(IP_HDR, _ => 0), [0, 0, 0xFF, 0xE6, 0, 0, 0, 0];
    UdpSumSplit(udp, ip);
    assert udp[2..] == [0xFF, 0xE6, 0, 0, 0, 0] && udp[2..][2..] == [0, 0, 0, 0];
    assert udp[2..][2..][2..] == [0, 0] && udp[2..][2..][2..][2..] == [];
  }

  lemma CarryOnce(s: nat)
    requires s < TWO32
    ensures s % 0x1_0000 + s / 0x1_0000 + s / 0x1_0000 * ONES == s
    ensures s % 0x1_0000 + s / 0x1_0000 <= 2 * ONES
  {
  }

  lemma UdpSumSplit(udp: seq<Byte>, ip: seq<Byte>)
    requires |ip| == IP_HDR
    ensures UdpSum(ip, udp)
            == WordSum(udp) + HostWord(ip[12], ip[13]) + HostWord(ip[14], ip[15]) + HostWord(ip[16], ip[17])
               + HostWord(ip[18], ip[19]) + Swap16(PROTO_UDP) + Swap16(|udp| % 0x1_0000)
  {
    var h := PseudoHeader(ip, PROTO_UDP, |udp| % 0x1_0000);
    PseudoHeaderSum(ip, PROTO_UDP, |udp| % 0x1_0000);
    WordSumSplit(h + udp, 12);
    assert (h + udp)[..12] == h && (h + udp)[12..] == udp;
  }

  lemma FoldDropsCarries(s: nat, k: nat)
    requires s > 0
    ensures Fold(s + k * ONES) == Fold(s)
  {
    var q := (s - 1) / ONES;
    assert s - 1 == q * ONES + (s - 1) % ONES;
    FoldUnique(s + k * ONES, Fold(s), q + k);
  }

  // ----- IGMP -----

  // The checksum of b in its zeroed field at k.
  method WithChecksum(b: seq<Byte>, k: nat) returns (r: seq<Byte>)
    requires k + 1 < |b| <= 0x2_0000 && k % 2 == 0 && b[k] == 0 && b[k + 1] == 0
    ensures |r| == |b| && Fold(WordSum(r)) == ONES
    ensures r[..k] == b[..k] && r[k + 2..] == b[k + 2..]
  {
    var sum := Csum(b);
    InsertedChecksumVerifies(b, k);
    r := PutWord(b, k, sum);
  }

  // createIgmpPkt: Ethernet, IP header with the router alert option, IGMPv2 message.
  method CreateIgmpPkt(join: bool, macSa: seq<Byte>, src: seq<Byte>, dst: seq<Byte>) returns (pkt: seq<Byte>)
    requires |macSa| == 6 && |src| == 4 && |dst| == 4
    ensures |pkt| == 14 + 24 + 8
    ensures pkt[..6] == [0x01, 0x00, 0x5E, dst[1] % 0x80, dst[2], dst[3]] && pkt[6..12] == macSa
    ensures pkt[12..14] == [0x08, 0x00]
    ensures Fold(WordSum(pkt[14..38])) == ONES && Fold(WordSum(pkt[38..46])) == ONES
    ensures pkt[14..24] == [0x46, 0xC0, 0, 32, 0, 0, 0x40, 0, 1, 2]
    ensures pkt[26..38] == src + dst + [0x94, 0x04, 0, 0]
    ensures pkt[38..40] == [if join then 0x16 else 0x17, 0] && pkt[42..46] == dst
  {
    var eth := [0x01, 0x00, 0x5E, dst[1] % 0x80, dst[2], dst[3]] + macSa + [0x08, 0x00];
    var fixed: seq<Byte> := [0x46, 0xC0, 0, 32, 0, 0, 0x40, 0, 1, PROTO_IGMP];
    var tail := src + dst + [0x94, 0x04, 0, 0];
    var kind: seq<Byte> := [if join then 0x16 else 0x17, 0];
    var ip := WithChecksum(fixed + [0, 0] + tail, 10);
    var igmp := WithChecksum(kind + [0, 0] + dst, 2);
    pkt := eth + ip + igmp;
    IgmpParts(eth, ip, igmp, pkt, fixed, tail, kind, dst);
  }

  lemma IgmpParts(eth: seq<Byte>, ip: seq<Byte>, igmp: seq<Byte>, pkt: seq<Byte>,
                  fixed: seq<Byte>, tail: seq<Byte>, kind: seq<Byte>, dst: seq<Byte>)
    requires |eth| == 14 && |ip| == 24 && |igmp| == 8 && pkt == eth + ip + igmp
    requires |fixed| == 10 && |tail| == 12 && |kind| == 2 && |dst| == 4
    requires ip[..10] == (fixed + [0, 0] + tail)[..10] && ip[12..] == (fixed + [0, 0] + tail)[12..]
    requires igmp[..2] == (kind + [0, 0] + dst)[..2] && igmp[4..] == (kind + [0, 0] + dst)[4..]
    ensures pkt[..14] == eth && pkt[14..38] == ip && pkt[38..46] == igmp
    ensures pkt[14..24] == fixed && pkt[26..38] == tail && pkt[38..40] == kind && pkt[42..46] == dst
    ensures pkt[..6] == eth[..6] && pkt[6..12] == eth[6..12] && pkt[12..14] == eth[12..14]
  {
    assert pkt[14..24] == ip[..10] == fixed && pkt[26..38] == ip[12..] == tail;
    assert pkt[38..40] == igmp[..2] == kind && pkt[42..46] == igmp[4..] == dst;
  }
}
