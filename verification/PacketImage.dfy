// A TCP action's packet image in the EPM heap, kept together with its IP checksum and its
// TCP partial sum. The image is first described as a value, then the methods that write it
// in place are tied to that description.
module PacketImage {
  import opened Bytes
  import opened Checksum
  import opened PacketOnWire
  import opened PseudoChecksum
  import opened Template
  import opened TemplateChecksum

  const EFC_HW_TTL: Byte := 0x55
  const EFC_HW_ID: Word16 := 0xABCD

  // EpmActionType, but for the values that no action has.
  datatype ActionType =
    | TcpFullPkt | TcpFastPath | TcpEmptyAck | Igmp
    | HwFireAction | SqfFire | SqfCancel | BoeFire | BoeCancel | CmeFire | CmeCancel
    | CmeHwCancel | CmeSwFire | CmeSwHeartbeat | ItchHwFastSweep | QEDHwPurge
    | CmeFc | EurFire | EurSwSend | MoexSwSend | MoexFireNew | MoexFireReplace | UserAction

  predicate IsTcp(t: ActionType) { !t.ItchHwFastSweep? && !t.Igmp? }

  // setTcpCsSizeSource: types whose size comes from the action.
  predicate FromAction(t: ActionType) {
    match t
    case UserAction => true case HwFireAction => true case EurFire => true
    case MoexFireNew => true case MoexFireReplace => true
    case BoeFire => true case BoeCancel => true case SqfFire => true case SqfCancel => true
    case CmeHwCancel => true case QEDHwPurge => true case ItchHwFastSweep => true
    case _ => false
  }

  // setIpTtl: types whose TTL and IP id are fixed.
  predicate HwTtl(t: ActionType) {
    match t
    case UserAction => true case HwFireAction => true case EurFire => true
    case MoexFireNew => true case MoexFireReplace => true case EurSwSend => true
    case BoeFire => true case BoeCancel => true case SqfFire => true case SqfCancel => true
    case CmeHwCancel => true case QEDHwPurge => true case ItchHwFastSweep => true
    case _ => false
  }

  // The two tables differ in one type: software sends of Eurex have the fixed TTL, but the
  // size of their descriptor.
  lemma ActionTypeTables(t: ActionType)
    ensures FromAction(t) <==>
              t in [UserAction, HwFireAction, EurFire, MoexFireNew, MoexFireReplace, BoeFire, BoeCancel, SqfFire,
                    SqfCancel, CmeHwCancel, QEDHwPurge, ItchHwFastSweep]
    ensures HwTtl(t) <==> FromAction(t) || t == EurSwSend
    ensures IsTcp(t) <==> t != Igmp && t != ItchHwFastSweep
  {
  }

  // What the driver's TCP templates have in common: they clear sequence, acknowledgement,
  // window and checksum of the TCP header and nothing else of the headers.
  predicate TcpTemplate(cells: seq<Cell>, slot: nat) {
    forall k :: 0 <= k < |cells| && cells[k].clear ==>
      k < slot && (38 <= k < 46 || 48 <= k < 52 || HDRS <= k)
  }

  // ----- the image as a value -----

  function IpHeader(img: seq<Byte>): (h: seq<Byte>)
    requires HDRS <= |img|
    ensures |h| == IP_HDR
  {
    img[IP..TCP]
  }

  function SetLen(img: seq<Byte>, len: Word16): seq<Byte>
    requires HDRS <= |img|
  {
    Put(img, IP + 2, NetBytes(len))
  }

  // The complement of the header's sum in the zeroed checksum field.
  function SetIpSum(img: seq<Byte>): seq<Byte>
    requires HDRS <= |img|
  {
    var zeroed := Put(img, IP + 10, [0, 0]);
    var c: Word16 := ONES - Fold(WordSum(IpHeader(zeroed)));
    Put(zeroed, IP + 10, [c % 0x100, c / 0x100])
  }

  function SetTtl(img: seq<Byte>, hwTtl: bool): seq<Byte>
    requires HDRS <= |img|
  {
    if hwTtl then Put(Put(img, IP + 8, [EFC_HW_TTL]), IP + 4, [EFC_HW_ID % 0x100, EFC_HW_ID / 0x100])
    else img
  }

  function ClearHw(img: seq<Byte>, cells: seq<Cell>): (r: seq<Byte>)
    ensures |r| == |img|
  {
    seq<Byte>(|img|, k requires 0 <= k < |img| => if k < |cells| && cells[k].clear then 0 else img[k])
  }

  // setNwHdrs, header by header.
  function EthBytes(macDa: seq<Byte>, macSa: seq<Byte>): (h: seq<Byte>)
    requires |macDa| == 6 && |macSa| == 6
    ensures |h| == IP
  {
    macDa + macSa + [0x08, 0x00]
  }

  function IpBytes(srcIp: seq<Byte>, dstIp: seq<Byte>, payloadLen: nat): (h: seq<Byte>)
    requires |srcIp| == 4 && |dstIp| == 4 && 40 + payloadLen <= ONES
    ensures |h| == TCP - IP
  {
    [0x45, 0] + NetBytes(40 + payloadLen) + [0, 0, 0x40, 0, 64, PROTO_TCP, 0, 0] + srcIp + dstIp
  }

  function TcpBytes(srcPort: Word16, dstPort: Word16): (h: seq<Byte>)
    ensures |h| == HDRS - TCP
  {
    NetBytes(srcPort) + NetBytes(dstPort) + [0, 0, 0, 0, 0, 0, 0, 0, 0x50, 0x18, 0, 0, 0, 0, 0, 0]
  }

  function NwHeaders(macDa: seq<Byte>, macSa: seq<Byte>, srcIp: seq<Byte>, dstIp: seq<Byte>,
                     srcPort: Word16, dstPort: Word16, payloadLen: nat): (h: seq<Byte>)
    requires |macDa| == 6 && |macSa| == 6 && |srcIp| == 4 && |dstIp| == 4 && 40 + payloadLen <= ONES
    ensures |h| == HDRS
  {
    EthBytes(macDa, macSa) + IpBytes(srcIp, dstIp, payloadLen) + TcpBytes(srcPort, dstPort)
  }

  // ----- what is kept -----

  predicate TtlSet(img: seq<Byte>, hwTtl: bool)
    requires HDRS <= |img|
  {
    hwTtl ==>
      img[IP + 8] == EFC_HW_TTL && img[IP + 4] == EFC_HW_ID % 0x100 && img[IP + 5] == EFC_HW_ID / 0x100
  }

  // Register bytes from lo to hi are zero in the image.
  predicate ClearedFrom(img: seq<Byte>, cells: seq<Cell>, lo: nat, hi: nat) {
    forall k :: lo <= k < hi && k < |cells| && k < |img| && cells[k].clear ==> img[k] == 0
  }

  // What holds from construction on.
  predicate Made(img: seq<Byte>, cells: seq<Cell>, hwTtl: bool, payloadLen: nat) {
    HDRS + payloadLen <= |img| && TtlSet(img, hwTtl) && ClearedFrom(img, cells, HDRS, HDRS + payloadLen)
  }

  // What holds after the first call that sets the image: the IP header states the packet's
  // size, its checksum verifies, register bytes are zero, and the partial sum is that of the
  // image at the stated length.
  predicate Good(img: seq<Byte>, cells: seq<Cell>, pktSize: nat, tcpCSum: nat) {
    && HDRS <= pktSize <= |img| && pktSize <= ONES
    && IP + IpLen(IpHeader(img)) == pktSize
    && Fold(WordSum(IpHeader(img))) == ONES
    && ClearedFrom(img, cells, 0, pktSize)
    && tcpCSum == PseudoSum(IpHeader(img), img[TCP..pktSize])
  }

  function PartialSum(img: seq<Byte>, pktSize: nat): nat
    requires HDRS <= pktSize <= |img| && pktSize <= ONES
  {
    PseudoSum(IpHeader(img), img[TCP..pktSize])
  }

  // ----- each small write -----

  lemma IpSumVerifies(img: seq<Byte>)
    requires HDRS <= |img|
    ensures Fold(WordSum(IpHeader(SetIpSum(img)))) == ONES
  {
    var zeroed := Put(img, IP + 10, [0, 0]);
    var h := IpHeader(zeroed);
    var c: Word16 := ONES - Fold(WordSum(h));
    assert h[10] == zeroed[IP + 10] && h[11] == zeroed[IP + 11];
    InsertedChecksumVerifies(h, 10);
    assert IpHeader(SetIpSum(img)) == PutWord(h, 10, c);
  }

  lemma IpSumKeeps(img: seq<Byte>)
    requires HDRS <= |img|
    ensures |SetIpSum(img)| == |img|
    ensures forall i :: 0 <= i < |img| && !(IP + 10 <= i < IP + 12) ==> SetIpSum(img)[i] == img[i]
  {
  }

  // Writing the constants again changes nothing: this is why the checksum may be computed
  // before the TTL is set.
  lemma TtlAgain(img: seq<Byte>, hwTtl: bool)
    requires HDRS <= |img| && TtlSet(img, hwTtl)
    ensures SetTtl(img, hwTtl) == img
  {
  }

  lemma ClearKeepsIpHeader(img: seq<Byte>, cells: seq<Cell>)
    requires HDRS <= |img| && TcpTemplate(cells, |img|)
    ensures IpHeader(ClearHw(img, cells)) == IpHeader(img)
  {
    assert forall k :: IP <= k < TCP && k < |cells| ==> !cells[k].clear;
  }

  // ----- the two ways to set a payload -----

  // updatePayload: length, checksum, clearing, TTL.
  function Updated(img: seq<Byte>, cells: seq<Cell>, hwTtl: bool, len: nat): seq<Byte>
    requires HDRS + len <= |img| <= ONES
  {
    SetTtl(ClearHw(SetIpSum(SetLen(img, 40 + len)), cells), hwTtl)
  }

  // setPktPayloadAndSendWC: length, checksum, TTL, payload, clearing.
  function Sent(img: seq<Byte>, cells: seq<Cell>, hwTtl: bool, buf: seq<Byte>): seq<Byte>
    requires HDRS + |buf| <= |img| <= ONES
  {
    ClearHw(Put(SetTtl(SetIpSum(SetLen(img, 40 + |buf|)), hwTtl), HDRS, buf), cells)
  }

  lemma LenStated(img: seq<Byte>, len: Word16)
    requires HDRS <= |img|
    ensures IpLen(IpHeader(SetIpSum(SetLen(img, len)))) == len
  {
    var a := SetLen(img, len);
    IpSumKeeps(a);
    assert a[IP + 2] == NetBytes(len)[0] && a[IP + 3] == NetBytes(len)[1];
  }

  lemma SumThenTtl(img: seq<Byte>, hwTtl: bool, len: Word16)
    requires HDRS <= |img| && TtlSet(img, hwTtl)
    ensures var b := SetIpSum(SetLen(img, len));
            |b| == |img| && TtlSet(b, hwTtl) && SetTtl(b, hwTtl) == b
  {
    var a := SetLen(img, len);
    IpSumKeeps(a);
    TtlAgain(SetIpSum(a), hwTtl);
  }

  // The last write of the TTL finds it set already.
  lemma UpdatedEndsCleared(img: seq<Byte>, cells: seq<Cell>, hwTtl: bool, len: nat)
    requires HDRS + len <= |img| <= ONES && TcpTemplate(cells, |img|) && TtlSet(img, hwTtl)
    ensures var b, r := SetIpSum(SetLen(img, 40 + len)), Updated(img, cells, hwTtl, len);
            r == ClearHw(b, cells) && TtlSet(r, hwTtl) && IpHeader(r) == IpHeader(b)
  {
    var b := SetIpSum(SetLen(img, 40 + len));
    SumThenTtl(img, hwTtl, 40 + len);
    var c := ClearHw(b, cells);
    ClearKeepsIpHeader(b, cells);
    assert TtlSet(c, hwTtl) by {
      assert IpHeader(c)[8] == IpHeader(b)[8] && IpHeader(c)[4] == IpHeader(b)[4] && IpHeader(c)[5] == IpHeader(b)[5];
    }
    TtlAgain(c, hwTtl);
  }

  lemma UpdatedIsGood(img: seq<Byte>, cells: seq<Cell>, hwTtl: bool, len: nat)
    requires HDRS + len <= |img| <= ONES && TcpTemplate(cells, |img|) && TtlSet(img, hwTtl)
    ensures var r := Updated(img, cells, hwTtl, len);
            && |r| == |img| && Made(r, cells, hwTtl, len)
            && Good(r, cells, HDRS + len, PartialSum(r, HDRS + len))
            && forall i :: HDRS <= i < |img| ==> r[i] == ClearHw(img, cells)[i]
  {
    UpdatedEndsCleared(img, cells, hwTtl, len);
    IpSumKeeps(SetLen(img, 40 + len));
    IpSumVerifies(SetLen(img, 40 + len));
    LenStated(img, 40 + len);
  }

  lemma SentIsUpdated(img: seq<Byte>, cells: seq<Cell>, hwTtl: bool, buf: seq<Byte>)
    requires HDRS + |buf| <= |img| <= ONES && TcpTemplate(cells, |img|) && TtlSet(img, hwTtl)
    ensures Sent(img, cells, hwTtl, buf) == Updated(Put(img, HDRS, buf), cells, hwTtl, |buf|)
  {
    var p := Put(img, HDRS, buf);
    SumThenTtl(img, hwTtl, 40 + |buf|);
    assert SetLen(p, 40 + |buf|) == Put(SetLen(img, 40 + |buf|), HDRS, buf);
    SumIgnoresPayload(SetLen(img, 40 + |buf|), buf);
    UpdatedEndsCleared(p, cells, hwTtl, |buf|);
  }

  lemma SumIgnoresPayload(img: seq<Byte>, buf: seq<Byte>)
    requires HDRS + |buf| <= |img|
    ensures SetIpSum(Put(img, HDRS, buf)) == Put(SetIpSum(img), HDRS, buf)
  {
    var p := Put(img, HDRS, buf);
    assert Put(p, IP + 10, [0, 0]) == Put(Put(img, IP + 10, [0, 0]), HDRS, buf);
    assert IpHeader(Put(p, IP + 10, [0, 0])) == IpHeader(Put(img, IP + 10, [0, 0]));
  }

  // ----- the headers -----

  function WithHeaders(img: seq<Byte>, hdrs: seq<Byte>, hwTtl: bool): seq<Byte>
    requires HDRS <= |img| && |hdrs| == HDRS
  {
    SetIpSum(SetTtl(Put(img, 0, hdrs), hwTtl))
  }

  // What the headers must satisfy: the stated length, zero where templates clear.
  predicate HeadersOk(hdrs: seq<Byte>, payloadLen: nat) {
    && |hdrs| == HDRS && NetWord(hdrs[IP + 2], hdrs[IP + 3]) == 40 + payloadLen
    && (forall k :: 38 <= k < 46 ==> hdrs[k] == 0) && (forall k :: 48 <= k < 52 ==> hdrs[k] == 0)
  }

  lemma NwHeadersOk(macDa: seq<Byte>, macSa: seq<Byte>, srcIp: seq<Byte>, dstIp: seq<Byte>,
                    srcPort: Word16, dstPort: Word16, payloadLen: nat)
    requires |macDa| == 6 && |macSa| == 6 && |srcIp| == 4 && |dstIp| == 4 && 40 + payloadLen <= ONES
    ensures HeadersOk(NwHeaders(macDa, macSa, srcIp, dstIp, srcPort, dstPort, payloadLen), payloadLen)
  {
    var h := NwHeaders(macDa, macSa, srcIp, dstIp, srcPort, dstPort, payloadLen);
    var len, ip := NetBytes(40 + payloadLen), IpBytes(srcIp, dstIp, payloadLen);
    assert h[IP..TCP] == ip;
    assert h[IP + 2] == ip[2] == len[0] && h[IP + 3] == ip[3] == len[1];
    assert h[TCP..] == TcpBytes(srcPort, dstPort);
    assert forall k :: TCP <= k < HDRS ==> h[k] == TcpBytes(srcPort, dstPort)[k - TCP];
  }

  // What a packet's headers hold, byte by byte (section 3.1 of RFC 791, section 3.1 of
  // RFC 9293), the IP checksum apart: version and size, no service, the length, the id, one
  // fragment, TTL, TCP, ports, sequence and acknowledgement to be filled in, header size,
  // PSH and ACK, and window, checksum and urgent pointer of zero.
  predicate HeadersAt(img: seq<Byte>, hwTtl: bool, macDa: seq<Byte>, macSa: seq<Byte>, srcIp: seq<Byte>, dstIp: seq<Byte>,
                      srcPort: Word16, dstPort: Word16, payloadLen: nat)
  {
    && HDRS <= |img|
    && img[..6] == macDa && img[6..12] == macSa && img[12] == 0x08 && img[13] == 0
    && img[14] == 0x45 && img[15] == 0
    && img[16] as int == (40 + payloadLen) / 0x100 && img[17] as int == (40 + payloadLen) % 0x100
    && img[18] == (if hwTtl then 0xCD else 0) && img[19] == (if hwTtl then 0xAB else 0)
    && img[20] == 0x40 && img[21] == 0
    && img[22] == (if hwTtl then 0x55 else 64) && img[23] == 6
    && img[26..30] == srcIp && img[30..34] == dstIp
    && img[34] as int == srcPort / 0x100 && img[35] as int == srcPort % 0x100
    && img[36] as int == dstPort / 0x100 && img[37] as int == dstPort % 0x100
    && (forall k :: 38 <= k < 46 ==> img[k] == 0)
    && img[46] == 0x50 && img[47] == 0x18
    && (forall k :: 48 <= k < 54 ==> img[k] == 0)
  }

  lemma ThreeParts(eth: seq<Byte>, ip: seq<Byte>, tcp: seq<Byte>, h: seq<Byte>)
    requires |eth| == IP && |ip| == TCP - IP && |tcp| == HDRS - TCP && h == eth + ip + tcp
    ensures h[..6] == eth[..6] && h[6..12] == eth[6..12] && h[26..30] == ip[12..16] && h[30..34] == ip[16..20]
    ensures forall k :: 0 <= k < IP ==> h[k] == eth[k]
    ensures forall k :: IP <= k < TCP ==> h[k] == ip[k - IP]
    ensures forall k :: TCP <= k < HDRS ==> h[k] == tcp[k - TCP]
  {
  }

  lemma HeadersPlaced(macDa: seq<Byte>, macSa: seq<Byte>, srcIp: seq<Byte>, dstIp: seq<Byte>,
                      srcPort: Word16, dstPort: Word16, payloadLen: nat)
    requires |macDa| == 6 && |macSa| == 6 && |srcIp| == 4 && |dstIp| == 4 && 40 + payloadLen <= ONES
    ensures HeadersAt(NwHeaders(macDa, macSa, srcIp, dstIp, srcPort, dstPort, payloadLen), false,
                      macDa, macSa, srcIp, dstIp, srcPort, dstPort, payloadLen)
  {
    var h := NwHeaders(macDa, macSa, srcIp, dstIp, srcPort, dstPort, payloadLen);
    var eth, ip, tcp := EthBytes(macDa, macSa), IpBytes(srcIp, dstIp, payloadLen), TcpBytes(srcPort, dstPort);
    ThreeParts(eth, ip, tcp, h);
  }

  // The headers that setNwHdrs leaves in the image.
  lemma HeadersCarryAddresses(img: seq<Byte>, hwTtl: bool, macDa: seq<Byte>, macSa: seq<Byte>,
                              srcIp: seq<Byte>, dstIp: seq<Byte>, srcPort: Word16, dstPort: Word16, payloadLen: nat)
    requires |macDa| == 6 && |macSa| == 6 && |srcIp| == 4 && |dstIp| == 4 && 40 + payloadLen <= ONES
    requires HDRS <= |img|
    ensures HeadersAt(WithHeaders(img, NwHeaders(macDa, macSa, srcIp, dstIp, srcPort, dstPort, payloadLen), hwTtl),
                      hwTtl, macDa, macSa, srcIp, dstIp, srcPort, dstPort, payloadLen)
  {
    var hdrs := NwHeaders(macDa, macSa, srcIp, dstIp, srcPort, dstPort, payloadLen);
    HeadersPlaced(macDa, macSa, srcIp, dstIp, srcPort, dstPort, payloadLen);
    HeadersKept(img, hdrs, hwTtl);
    HeadersStay(hdrs, WithHeaders(img, hdrs, hwTtl), hwTtl, macDa, macSa, srcIp, dstIp, srcPort, dstPort, payloadLen);
  }

  lemma HeadersStay(h: seq<Byte>, r: seq<Byte>, hwTtl: bool, macDa: seq<Byte>, macSa: seq<Byte>,
                    srcIp: seq<Byte>, dstIp: seq<Byte>, srcPort: Word16, dstPort: Word16, payloadLen: nat)
    requires HeadersAt(h, false, macDa, macSa, srcIp, dstIp, srcPort, dstPort, payloadLen) && |h| <= |r|
    requires forall i :: 0 <= i < |h| && !(18 <= i < 20) && !(22 <= i < 23) && !(24 <= i < 26) ==> r[i] == h[i]
    requires r[18] == (if hwTtl then 0xCD else 0) && r[19] == (if hwTtl then 0xAB else 0)
    requires r[22] == (if hwTtl then 0x55 else 64)
    ensures HeadersAt(r, hwTtl, macDa, macSa, srcIp, dstIp, srcPort, dstPort, payloadLen)
  {
    assert r[..6] == h[..6] && r[6..12] == h[6..12] && r[26..30] == h[26..30] && r[30..34] == h[30..34];
  }

  lemma PutThree(img: seq<Byte>, a: seq<Byte>, b: seq<Byte>, c: seq<Byte>)
    requires |a| + |b| + |c| <= |img|
    ensures Put(Put(Put(img, 0, a), |a|, b), |a| + |b|, c) == Put(img, 0, a + b + c)
  {
  }

  lemma HeadersKept(img: seq<Byte>, hdrs: seq<Byte>, hwTtl: bool)
    requires HDRS <= |img| && |hdrs| == HDRS
    ensures var r := WithHeaders(img, hdrs, hwTtl);
            && |r| == |img| && TtlSet(r, hwTtl)
            && r[18] == (if hwTtl then 0xCD else hdrs[18]) && r[19] == (if hwTtl then 0xAB else hdrs[19])
            && r[22] == (if hwTtl then 0x55 else hdrs[22])
            && forall i :: 0 <= i < |img| && !(18 <= i < 20) && !(22 <= i < 23) && !(24 <= i < 26) ==>
                 r[i] == if i < HDRS then hdrs[i] else img[i]
  {
    IpSumKeeps(SetTtl(Put(img, 0, hdrs), hwTtl));
  }

  lemma HeadersAreGood(img: seq<Byte>, cells: seq<Cell>, hwTtl: bool, payloadLen: nat, hdrs: seq<Byte>)
    requires HDRS <= |img| <= ONES && TcpTemplate(cells, |img|) && Made(img, cells, hwTtl, payloadLen)
    requires HeadersOk(hdrs, payloadLen)
    ensures var r := WithHeaders(img, hdrs, hwTtl);
            && |r| == |img| && Made(r, cells, hwTtl, payloadLen)
            && Good(r, cells, HDRS + payloadLen, PartialSum(r, HDRS + payloadLen))
  {
    HeadersKept(img, hdrs, hwTtl);
    IpSumVerifies(SetTtl(Put(img, 0, hdrs), hwTtl));
  }

  // The payload as the image holds it: register bytes are zero.
  predicate HoldsPayload(img: seq<Byte>, cells: seq<Cell>, buf: seq<Byte>) {
    && HDRS + |buf| <= |img|
    && forall i :: HDRS <= i < HDRS + |buf| ==>
         img[i] == if i < |cells| && cells[i].clear then 0 else buf[i - HDRS]
  }

  lemma PayloadIsHeld(img: seq<Byte>, r: seq<Byte>, cells: seq<Cell>, buf: seq<Byte>)
    requires HDRS + |buf| <= |img| == |r|
    requires forall i :: HDRS <= i < |img| ==> r[i] == ClearHw(Put(img, HDRS, buf), cells)[i]
    ensures HoldsPayload(r, cells, buf) && ClearedFrom(r, cells, HDRS, |r|)
  {
    var p := Put(img, HDRS, buf);
    forall i | HDRS <= i < HDRS + |buf|
      ensures r[i] == if i < |cells| && cells[i].clear then 0 else buf[i - HDRS]
    {
      assert p[HDRS + (i - HDRS)] == buf[i - HDRS];
      assert r[i] == ClearHw(p, cells)[i];
    }
  }

  // The headers but for length, IP checksum and register bytes.
  predicate HeaderStays(img: seq<Byte>, r: seq<Byte>, cells: seq<Cell>) {
    && |r| == |img| >= HDRS
    && forall i :: 0 <= i < HDRS && !(16 <= i < 18) && !(24 <= i < 26) ==>
         r[i] == if i < |cells| && cells[i].clear then 0 else img[i]
  }

  lemma PayloadLeavesHeader(img: seq<Byte>, cells: seq<Cell>, hwTtl: bool, buf: seq<Byte>)
    requires HDRS + |buf| <= |img| <= ONES && TcpTemplate(cells, |img|) && TtlSet(img, hwTtl)
    ensures var r := Updated(Put(img, HDRS, buf), cells, hwTtl, |buf|);
            HeaderStays(img, r, cells) && (IsTcpPacket(r) <==> IsTcpPacket(img))
  {
    var p := Put(img, HDRS, buf);
    UpdatedEndsCleared(p, cells, hwTtl, |buf|);
    IpSumKeeps(SetLen(p, 40 + |buf|));
    assert forall k :: IP <= k < TCP && k < |cells| ==> !cells[k].clear;
  }

  lemma PayloadIsGood(img: seq<Byte>, cells: seq<Cell>, hwTtl: bool, buf: seq<Byte>)
    requires HDRS + |buf| <= |img| <= ONES && TcpTemplate(cells, |img|) && TtlSet(img, hwTtl)
    ensures var r := Updated(Put(img, HDRS, buf), cells, hwTtl, |buf|);
            && |r| == |img| && Made(r, cells, hwTtl, |buf|) && HoldsPayload(r, cells, buf)
            && Good(r, cells, HDRS + |buf|, PartialSum(r, HDRS + |buf|))
            && ClearedFrom(r, cells, HDRS, |r|)
  {
    UpdatedIsGood(Put(img, HDRS, buf), cells, hwTtl, |buf|);
    PayloadIsHeld(img, Updated(Put(img, HDRS, buf), cells, hwTtl, |buf|), cells, buf);
  }

  // A slice of a stretch is the shifted slice.
  lemma SliceOfSlice(s: seq<Byte>, at: nat, n: nat, lo: nat, hi: nat)
    requires at + n <= |s| && lo <= hi <= n
    ensures s[at..at + n][lo..hi] == s[at + lo..at + hi]
  {
    var part, whole := s[at..at + n][lo..hi], s[at + lo..at + hi];
    assert forall i :: 0 <= i < hi - lo ==> part[i] == whole[i];
  }

  // ----- what leaves -----

  // Templates whose register bytes the hardware sums right.
  predicate Suits(cells: seq<Cell>) { WellFormed(cells) && HasTcpHeader(cells) }

  // A good image, completed by the FPGA, verifies for every register file if and only if its
  // header is a TCP packet's and the packet reaches over every register byte.
  lemma GoodVerifiesExactly(img: seq<Byte>, cells: seq<Cell>, pktSize: nat, tcpCSum: nat)
    requires Good(img, cells, pktSize, tcpCSum)
    ensures Suits(cells) ==>
              (AlwaysVerifies(img[..pktSize], cells, tcpCSum) <==> IsTcpPacket(img) && NoneBehind(cells, pktSize))
  {
    var image := img[..pktSize];
    assert image[IP..TCP] == IpHeader(img) && image[TCP..] == img[TCP..pktSize];
    if Suits(cells) {
      CompletedVerifiesExactly(image, cells, tcpCSum);
    }
  }

  lemma HeadersVerify(was: seq<Byte>, img: seq<Byte>, cells: seq<Cell>, pktSize: nat, tcpCSum: nat, hwTtl: bool,
                      macDa: seq<Byte>, macSa: seq<Byte>, srcIp: seq<Byte>, dstIp: seq<Byte>,
                      srcPort: Word16, dstPort: Word16, payloadLen: nat)
    requires |macDa| == 6 && |macSa| == 6 && |srcIp| == 4 && |dstIp| == 4 && 40 + payloadLen <= ONES
    requires HDRS <= |was| && Good(img, cells, pktSize, tcpCSum)
    requires img == WithHeaders(was, NwHeaders(macDa, macSa, srcIp, dstIp, srcPort, dstPort, payloadLen), hwTtl)
    ensures HeadersAt(img, hwTtl, macDa, macSa, srcIp, dstIp, srcPort, dstPort, payloadLen)
    ensures Suits(cells) ==> (AlwaysVerifies(img[..pktSize], cells, tcpCSum) <==> NoneBehind(cells, pktSize))
  {
    HeadersCarryAddresses(was, hwTtl, macDa, macSa, srcIp, dstIp, srcPort, dstPort, payloadLen);
    GoodVerifiesExactly(img, cells, pktSize, tcpCSum);
  }

  // ----- the action -----

  // PastSlot: the copy of the payload would leave the action's slot. What the source does
  // from there on is not modelled.
  datatype Outcome = Done | Aborted | PastSlot

  class EkaEpmAction {
    const heap: array<Byte>
    const heapOffs: nat
    const slot: nat            // heap budget of the action
    const epmTemplate: EpmTemplate
    const actionType: ActionType

    var payloadLen: nat
    var pktSize: nat
    var tcpCSum: nat

    // The memory layout; it never changes.
    predicate Shape() {
      && IsTcp(actionType)
      && HDRS <= slot <= MAX_ETH_FRAME_SIZE
      && heapOffs + MAX_ETH_FRAME_SIZE <= heap.Length
      && |Cells()| <= MAX_ETH_FRAME_SIZE
      && TcpTemplate(Cells(), slot)
    }

    function Cells(): seq<Cell> { Layout(epmTemplate.templateStruct) }

    function Image(): (img: seq<Byte>)
      requires Shape()
      reads heap
      ensures |img| == slot
    {
      heap[heapOffs..heapOffs + slot]
    }

    predicate IsMade()
      requires Shape()
      reads this, heap
    {
      Made(Image(), Cells(), HwTtl(actionType), payloadLen)
    }

    predicate IsGood()
      requires Shape()
      reads this, heap
    {
      IsMade() && Good(Image(), Cells(), pktSize, tcpCSum)
    }

    // Nothing outside the action's slot has changed.
    twostate predicate OnlySlot()
      requires Shape()
      reads heap
    {
      forall i :: 0 <= i < heap.Length && !(heapOffs <= i < heapOffs + slot) ==> heap[i] == old(heap[i])
    }

    constructor (heap: array<Byte>, heapOffs: nat, slot: nat, template: EpmTemplate, actionType: ActionType)
      requires IsTcp(actionType)
      requires HDRS <= slot <= MAX_ETH_FRAME_SIZE && heapOffs + MAX_ETH_FRAME_SIZE <= heap.Length
      requires |Layout(template.templateStruct)| <= MAX_ETH_FRAME_SIZE
      requires TcpTemplate(Layout(template.templateStruct), slot)
      modifies heap
      ensures this.heap == heap && this.heapOffs == heapOffs && this.slot == slot
      ensures this.epmTemplate == template && this.actionType == actionType
      ensures Shape() && IsMade() && payloadLen == 0
      ensures forall i :: 0 <= i < heap.Length && !(heapOffs <= i < heapOffs + slot) ==> heap[i] == old(heap[i])
    {
      this.heap, this.heapOffs, this.slot := heap, heapOffs, slot;
      this.epmTemplate, this.actionType := template, actionType;
      payloadLen, pktSize, tcpCSum := 0, 0, 0;
      new;
      PutBytes(0, seq<Byte>(HDRS, _ => 0));
      SetIpTtl();
    }

    // ----- small writes -----

    method PutBytes(at: nat, bytes: seq<Byte>)
      requires Shape() && at + |bytes| <= slot
      modifies heap
      ensures Image() == Put(old(Image()), at, bytes) && OnlySlot()
    {
      for i := 0 to |bytes|
        invariant forall j :: 0 <= j < i ==> heap[heapOffs + at + j] == bytes[j]
        invariant forall j :: 0 <= j < heap.Length && !(heapOffs + at <= j < heapOffs + at + i) ==>
                    heap[j] == old(heap[j])
      {
        heap[heapOffs + at + i] := bytes[i];
      }
      assert Image() == Put(old(Image()), at, bytes);
    }

    method SetIpTtl()
      requires Shape()
      modifies heap
      ensures Image() == SetTtl(old(Image()), HwTtl(actionType)) && OnlySlot()
      ensures forall i :: 0 <= i < slot ==>
                Image()[i] == if !HwTtl(actionType) then old(Image())[i]
                              else if i == 18 then 0xCD else if i == 19 then 0xAB else if i == 22 then 0x55
                              else old(Image())[i]
    {
      if HwTtl(actionType) {
        PutBytes(IP + 8, [EFC_HW_TTL]);
        PutBytes(IP + 4, [EFC_HW_ID % 0x100, EFC_HW_ID / 0x100]);
      }
    }

    // Zero the checksum field, sum the header, store the complement.
    method RefreshIpChecksum()
      requires Shape()
      modifies heap
      ensures Image() == SetIpSum(old(Image())) && OnlySlot()
    {
      PutBytes(IP + 10, [0, 0]);
      var c := IpChecksum();
      var lo: Byte, hi: Byte := c % 0x100, c / 0x100;
      PutBytes(IP + 10, [lo, hi]);
    }

    method IpChecksum() returns (c: Word16)
      requires Shape()
      ensures c == ONES - Fold(WordSum(IpHeader(Image())))
    {
      var ip := heap[heapOffs + IP..heapOffs + TCP];
      assert ip == IpHeader(Image()) by {
        SliceOfSlice(heap[..], heapOffs, slot, IP, TCP);
      }
      c := Csum(ip);
    }

    method ClearHwFields()
      requires Shape()
      modifies heap
      ensures Image() == ClearHw(old(Image()), Cells()) && OnlySlot()
    {
      epmTemplate.ClearHwFields(heap, heapOffs);
      assert Image() == ClearHw(old(Image()), Cells());
    }

    // ekaPseudoTcpCsum over the header's own idea of the length.
    method RefreshTcpSum(size: nat)
      requires Shape() && HDRS <= size <= slot && IP + IpLen(IpHeader(Image())) == size
      modifies this`tcpCSum
      ensures tcpCSum == PartialSum(Image(), size)
    {
      var ip := heap[heapOffs + IP..heapOffs + TCP];
      var mem := heap[heapOffs + TCP..heapOffs + MAX_ETH_FRAME_SIZE];
      assert ip == IpHeader(Image()) by {
        SliceOfSlice(heap[..], heapOffs, slot, IP, TCP);
      }
      assert mem[..size - TCP] == Image()[TCP..size] by {
        SliceOfSlice(heap[..], heapOffs, slot, TCP, size);
        SliceOfSlice(heap[..], heapOffs + TCP, MAX_ETH_FRAME_SIZE - TCP, 0, size - TCP);
      }
      tcpCSum := EkaPseudoTcpCsum(ip, mem);
    }

    // ----- the calls that set the image -----

    // setTcpSess and setNwHdrs of a TCP action.
    method SetNwHdrs(macDa: seq<Byte>, macSa: seq<Byte>, srcIp: seq<Byte>, dstIp: seq<Byte>,
                     srcPort: Word16, dstPort: Word16)
      requires Shape() && IsMade()
      requires |macDa| == 6 && |macSa| == 6 && |srcIp| == 4 && |dstIp| == 4
      modifies this`pktSize, this`tcpCSum, heap
      ensures IsGood() && pktSize == HDRS + payloadLen && OnlySlot()
      ensures HeadersAt(Image(), HwTtl(actionType), macDa, macSa, srcIp, dstIp, srcPort, dstPort, payloadLen)
      ensures Suits(Cells()) ==> (AlwaysVerifies(Packet(), Cells(), tcpCSum) <==> NoneBehind(Cells(), pktSize))
      ensures Image() == WithHeaders(old(Image()),
                                     NwHeaders(macDa, macSa, srcIp, dstIp, srcPort, dstPort, payloadLen), HwTtl(actionType))
    {
      StoreHeaders(macDa, macSa, srcIp, dstIp, srcPort, dstPort);
      HeadersVerify(old(Image()), Image(), Cells(), pktSize, tcpCSum, HwTtl(actionType),
                    macDa, macSa, srcIp, dstIp, srcPort, dstPort, payloadLen);
    }

    method StoreHeaders(macDa: seq<Byte>, macSa: seq<Byte>, srcIp: seq<Byte>, dstIp: seq<Byte>,
                        srcPort: Word16, dstPort: Word16)
      requires Shape() && IsMade()
      requires |macDa| == 6 && |macSa| == 6 && |srcIp| == 4 && |dstIp| == 4
      modifies this`pktSize, this`tcpCSum, heap
      ensures IsGood() && pktSize == HDRS + payloadLen && OnlySlot()
      ensures Image() == WithHeaders(old(Image()),
                                     NwHeaders(macDa, macSa, srcIp, dstIp, srcPort, dstPort, payloadLen), HwTtl(actionType))
    {
      ghost var hdrs := NwHeaders(macDa, macSa, srcIp, dstIp, srcPort, dstPort, payloadLen);
      NwHeadersOk(macDa, macSa, srcIp, dstIp, srcPort, dstPort, payloadLen);
      HeadersAreGood(Image(), Cells(), HwTtl(actionType), payloadLen, hdrs);
      WriteHeaders(macDa, macSa, srcIp, dstIp, srcPort, dstPort);
      pktSize := HDRS + payloadLen;
      RefreshTcpSum(pktSize);
    }

    method WriteHeaders(macDa: seq<Byte>, macSa: seq<Byte>, srcIp: seq<Byte>, dstIp: seq<Byte>,
                        srcPort: Word16, dstPort: Word16)
      requires Shape() && HDRS + payloadLen <= slot
      requires |macDa| == 6 && |macSa| == 6 && |srcIp| == 4 && |dstIp| == 4
      modifies heap
      ensures Image() == WithHeaders(old(Image()),
                                     NwHeaders(macDa, macSa, srcIp, dstIp, srcPort, dstPort, payloadLen), HwTtl(actionType))
      ensures OnlySlot()
    {
      ghost var was := Image();
      var eth, ip, tcp := EthBytes(macDa, macSa), IpBytes(srcIp, dstIp, payloadLen), TcpBytes(srcPort, dstPort);
      PutBytes(0, eth);
      PutBytes(IP, ip);
      PutBytes(TCP, tcp);
      PutThree(was, eth, ip, tcp);
      SetIpTtl();
      RefreshIpChecksum();
    }

    // getByteSize
    function TemplatePayload(): nat { (|Cells()| - HDRS) % 0x1_0000 }

    // setPayload and updatePayload.
    method SetPayload(buf: seq<Byte>) returns (r: Outcome)
      requires Shape() && IsMade()
      modifies this, heap
      ensures r == if FromAction(actionType) && TemplatePayload() < |buf| then Aborted
                   else if slot < HDRS + |buf| then PastSlot
                   else Done
      ensures 54 <= |Cells()| ==> (r.Aborted? <==> FromAction(actionType) && |Cells()| < 54 + |buf|)
      ensures r.PastSlot? <==> !r.Aborted? && slot < 54 + |buf|
      ensures payloadLen == |buf|
      ensures r.Done? ==> IsGood() && pktSize == HDRS + |buf| && HoldsPayload(Image(), Cells(), buf)
      ensures r.Done? ==> HeaderStays(old(Image()), Image(), Cells())
      ensures r.Done? && Suits(Cells()) ==>
                (AlwaysVerifies(Packet(), Cells(), tcpCSum) <==> IsTcpPacket(old(Image())) && NoneBehind(Cells(), pktSize))
      ensures FromAction(actionType) && HDRS <= |Cells()| <= slot ==> !r.PastSlot?
      ensures !r.Done? ==> Image() == old(Image())
      ensures OnlySlot()
    {
      payloadLen := |buf|;
      if FromAction(actionType) && TemplatePayload() < |buf| {
        return Aborted;
      }
      if slot < HDRS + |buf| {
        return PastSlot;
      }
      StorePayload(buf);
      r := Done;
    }

    method StorePayload(buf: seq<Byte>)
      requires Shape() && TtlSet(Image(), HwTtl(actionType)) && payloadLen == |buf| && HDRS + |buf| <= slot
      modifies this`pktSize, this`tcpCSum, heap
      ensures IsGood() && pktSize == HDRS + |buf| && HoldsPayload(Image(), Cells(), buf)
      ensures HeaderStays(old(Image()), Image(), Cells())
      ensures Suits(Cells()) ==>
                (AlwaysVerifies(Packet(), Cells(), tcpCSum) <==> IsTcpPacket(old(Image())) && NoneBehind(Cells(), pktSize))
      ensures OnlySlot()
    {
      PayloadIsGood(Image(), Cells(), HwTtl(actionType), buf);
      PayloadLeavesHeader(Image(), Cells(), HwTtl(actionType), buf);
      WritePayload(buf);
      pktSize := HDRS + payloadLen;
      RefreshTcpSum(pktSize);
      GoodVerifiesExactly(Image(), Cells(), pktSize, tcpCSum);
    }

    method SetLenAndSum(len: Word16)
      requires Shape()
      modifies heap
      ensures Image() == SetIpSum(SetLen(old(Image()), len)) && OnlySlot()
    {
      PutBytes(IP + 2, NetBytes(len));
      RefreshIpChecksum();
    }

    // The writes of setPayload and updatePayload, in their order.
    method WritePayload(buf: seq<Byte>)
      requires Shape() && HDRS + |buf| <= slot
      modifies heap
      ensures Image() == Updated(Put(old(Image()), HDRS, buf), Cells(), HwTtl(actionType), |buf|) && OnlySlot()
    {
      PutBytes(HDRS, buf);
      SetLenAndSum(40 + |buf|);
      ClearHwFields();
      SetIpTtl();
    }

    // setPktPayloadAndSendWC, with what it hands to the FPGA. The action's own payload length
    // stays what it was.
    method SetPktPayloadAndSendWC(buf: seq<Byte>) returns (r: Outcome, image: seq<Byte>, pseudo: nat)
      requires Shape() && IsMade()
      modifies this, heap
      ensures r == if slot < HDRS + |buf| then PastSlot else Done
      ensures payloadLen == old(payloadLen)
      ensures r.Done? ==> IsGood() && pktSize == HDRS + |buf| && HoldsPayload(Image(), Cells(), buf)
      ensures r.Done? ==> image == Packet() && pseudo == tcpCSum
      ensures r.Done? ==> HeaderStays(old(Image()), Image(), Cells())
      ensures r.Done? && Suits(Cells()) ==>
                (AlwaysVerifies(image, Cells(), pseudo) <==> IsTcpPacket(old(Image())) && NoneBehind(Cells(), |image|))
      ensures !r.Done? ==> Image() == old(Image())
      ensures OnlySlot()
    {
      if slot < HDRS + |buf| {
        return PastSlot, [], 0;
      }
      PayloadIsGood(Image(), Cells(), HwTtl(actionType), buf);
      PayloadLeavesHeader(Image(), Cells(), HwTtl(actionType), buf);
      SentIsUpdated(Image(), Cells(), HwTtl(actionType), buf);
      WriteAndClear(buf);
      pktSize := HDRS + |buf|;
      RefreshTcpSum(pktSize);
      GoodVerifiesExactly(Image(), Cells(), pktSize, tcpCSum);
      r, pseudo := Done, tcpCSum;
      image := PacketBytes();
    }

    function Packet(): (b: seq<Byte>)
      requires Shape() && pktSize <= slot
      reads this, heap
    {
      Image()[..pktSize]
    }

    method PacketBytes() returns (b: seq<Byte>)
      requires Shape() && pktSize <= slot
      ensures b == Packet()
    {
      b := heap[heapOffs..heapOffs + pktSize];
      SliceOfSlice(heap[..], heapOffs, slot, 0, pktSize);
    }

    // The writes of setPktPayloadAndSendWC, in their order.
    method WriteAndClear(buf: seq<Byte>)
      requires Shape() && HDRS + |buf| <= slot
      modifies heap
      ensures Image() == Sent(old(Image()), Cells(), HwTtl(actionType), buf) && OnlySlot()
    {
      SetLenAndSum(40 + |buf|);
      SetIpTtl();
      PutBytes(HDRS, buf);
      ClearHwFields();
    }
  }
}
