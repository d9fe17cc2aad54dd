// The arrays of a template as the FPGA uses them: the byte map says where each packet byte
// comes from, the two bitmaps which register bytes go into the checksum.
module TemplateArrays {
  import opened Checksum
  import opened DriverPackets
  import opened PacketOnWire
  import opened PseudoChecksum
  import opened Template
  import opened TemplateChecksum
  import opened TemplateInstances
  import opened TemplateReceiver

  // ----- filling by the map -----

  // Byte k of a packet whose checksum comes out as c: entries below 8 name a byte of the
  // aligned eight around k, 18 and 19 the checksum, any other a register byte.
  function MappedByte(entries: seq<Byte>, image: seq<Byte>, hw: Registers, c: Word16, k: nat): Byte
    requires k < |image|
  {
    if |entries| <= k then image[k]
    else if entries[k] < 8 then
      var lane := k / 8 * 8 + entries[k];
      if lane < |image| then image[lane] else 0
    else if entries[k] == 18 then c / 0x100
    else if entries[k] == 19 then c % 0x100
    else hw[entries[k]]
  }

  function Mapped(entries: seq<Byte>, image: seq<Byte>, hw: Registers, c: Word16): (pkt: seq<Byte>)
    ensures |pkt| == |image|
  {
    seq<Byte>(|image|, k requires 0 <= k < |image| => MappedByte(entries, image, hw, c, k))
  }

  // No register byte is taken for an immediate or for the checksum, and the checksum field,
  // its last byte first, stands in the TCP header and nowhere else.
  predicate MapsApart(cells: seq<Cell>) {
    && TCP + 20 <= |cells|
    && (forall k :: 0 <= k < |cells| && IsSummed(cells[k]) ==> 8 <= cells[k].h && cells[k].h != 18 && cells[k].h != 19)
    && cells[TCP + 16] == Hw(19, false, true) && cells[TCP + 17] == Hw(18, false, true)
    && (forall k :: 0 <= k < |cells| && cells[k].Hw? && k != TCP + 16 && k != TCP + 17 ==> cells[k].summed)
  }

  // Filling through the map gives the completed packet.
  lemma MapFills(cells: seq<Cell>, entries: seq<Byte>, image: seq<Byte>, hw: Registers, c: Word16)
    requires MapsApart(cells) && TCP + 20 <= |image| && |entries| == |cells|
    requires forall k :: 0 <= k < |cells| ==> entries[k] == MapByte(cells[k], k)
    requires forall k :: 0 <= k < |image| && k < |cells| && cells[k].clear ==> image[k] == 0
    ensures Mapped(entries, image, hw, c) == PutWord(FilledIn(image, cells, hw), TCP + 16, c)
  {
    var pkt := PutWord(FilledIn(image, cells, hw), TCP + 16, c);
    forall k | 0 <= k < |image| ensures MappedByte(entries, image, hw, c, k) == pkt[k] {
      if k < |cells| && k != TCP + 16 && k != TCP + 17 {
        MapFillsByte(cells, entries, image, hw, c, k);
      }
    }
  }

  lemma MapFillsByte(cells: seq<Cell>, entries: seq<Byte>, image: seq<Byte>, hw: Registers, c: Word16, k: nat)
    requires MapsApart(cells) && k < |image| && k < |entries| == |cells| && k != TCP + 16 && k != TCP + 17
    requires entries[k] == MapByte(cells[k], k) && (cells[k].clear ==> image[k] == 0)
    ensures MappedByte(entries, image, hw, c, k) == FilledByte(cells[k], image[k], hw)
  {
    if cells[k].Fixed? {
      assert k / 8 * 8 + k % 8 == k;
    }
  }

  // ----- summing by the bitmaps -----

  ghost function BitSum(bits: array2<bool>, hw: Registers, n: nat): nat
    requires bits.Length0 == 16 && bits.Length1 == 16 && n <= HW_BYTES
    reads bits
  {
    if n == 0 then 0
    else BitSum(bits, hw, n - 1) + if bits[(n - 1) / 16, (n - 1) % 16] then hw[n - 1] else 0
  }

  lemma {:induction false} BitmapsSum(t: EpmTemplate, cells: seq<Cell>, hw: Registers, n: nat)
    requires t.Shape() && t.BitmapsOf(cells) && n <= HW_BYTES
    ensures BitSum(t.low, hw, n) == SelectedSum(cells, false, hw, n)
    ensures BitSum(t.high, hw, n) == SelectedSum(cells, true, hw, n)
    decreases n
  {
    if n > 0 {
      BitmapsSum(t, cells, hw, n - 1);
      var h: Byte := n - 1;
      assert t.low[h / 16, h % 16] == Covered(cells, false, h) && t.high[h / 16, h % 16] == Covered(cells, true, h);
    }
  }

  // ----- the packet that the arrays make -----

  // The state in which init leaves a template.
  ghost predicate Ready(t: EpmTemplate)
    reads t, t.data, t.low, t.high
  {
    && t.Shape() && t.byteSize == |Layout(t.templateStruct)| <= MAX_ETH_FRAME_SIZE
    && t.BitmapsOf(Layout(t.templateStruct))
    && forall k :: 0 <= k < t.byteSize ==> t.data[k] == MapByte(Layout(t.templateStruct)[k], k)
  }

  ghost function Emitted(t: EpmTemplate, image: seq<Byte>, pseudo: nat, hw: Registers): (pkt: seq<Byte>)
    requires Ready(t)
    reads t, t.data, t.low, t.high
    ensures |pkt| == |image|
  {
    var added := BitSum(t.low, hw, HW_BYTES) + 0x100 * BitSum(t.high, hw, HW_BYTES);
    Mapped(t.data[..t.byteSize], image, hw, ONES - Fold(pseudo + added))
  }

  lemma ArraysComplete(t: EpmTemplate, image: seq<Byte>, pseudo: nat, hw: Registers)
    requires Ready(t)
    requires var cells := Layout(t.templateStruct); MapsApart(cells) && Handed(image, cells, pseudo)
    ensures Emitted(t, image, pseudo, hw) == Completed(image, Layout(t.templateStruct), pseudo, hw)
  {
    var cells := Layout(t.templateStruct);
    BitmapsSum(t, cells, hw, HW_BYTES);
    MapFills(cells, t.data[..t.byteSize], image, hw, ONES - Fold(pseudo + HardwareSum(cells, hw)));
  }

  // The packet that byte map and bitmaps make of what was handed over verifies for every
  // register file if and only if its header is that of a TCP packet and it reaches over every
  // register byte.
  lemma EmittedVerifiesExactly(t: EpmTemplate, image: seq<Byte>, pseudo: nat)
    requires Ready(t)
    requires var cells := Layout(t.templateStruct);
             MapsApart(cells) && WellFormed(cells) && HasTcpHeader(cells) && Handed(image, cells, pseudo)
    ensures (forall hw: Registers ::
               var pkt := Emitted(t, image, pseudo, hw);
               IsTcpPacket(pkt) && IpVerifies(pkt) && TcpVerifies(pkt))
            <==> IsTcpPacket(image) && NoneBehind(Layout(t.templateStruct), |image|)
  {
    var cells := Layout(t.templateStruct);
    CompletedVerifiesExactly(image, cells, pseudo);
    forall hw: Registers ensures Emitted(t, image, pseudo, hw) == Completed(image, cells, pseudo, hw) {
      ArraysComplete(t, image, pseudo, hw);
    }
  }

  // ----- the driver's templates -----

  // A payload that leaves the checksum to the headers.
  predicate Plain(payload: seq<Field>) {
    forall i :: 0 <= i < |payload| ==>
      !payload[i].source.TcpChckSum? && (IsHw(payload[i]) ==> payload[i].size <= FIELD_SIZES[payload[i].source.Index()])
  }

  lemma PlainByte(f: Field, b: nat)
    requires b < f.size && IsHw(f) && f.size <= FIELD_SIZES[f.source.Index()]
    ensures var c := CellOf(f, b); IsSummed(c) && 8 <= c.h && c.h != 18 && c.h != 19
  {
    HwByteRange(f.(clear := true), b);
    StartsAt(f.source);
  }

  // The bytes of fields that are plain.
  lemma PlainCell(fs: seq<Field>, k: nat)
    requires Plain(fs) && k < |Layout(fs)|
    ensures var c := Layout(fs)[k]; c.Hw? ==> IsSummed(c) && 8 <= c.h && c.h != 18 && c.h != 19
  {
    var i, b := Locate(fs, k);
    if IsHw(fs[i]) {
      PlainByte(fs[i], b);
    }
  }

  lemma HeaderCell(a: seq<Field>, b: seq<Field>, c: Field, d: Field, payload: seq<Field>, k: nat)
    requires HasHeaders(a, b, c, d) && k < |Layout(a + (b + [c, d]) + payload)|
    ensures |Layout(a)| == TCP && |Layout(b)| == 16 && |Layout(a + (b + [c, d]) + payload)| == HDRS + |Layout(payload)|
    ensures Layout(a + (b + [c, d]) + payload)[k]
            == if k < TCP then Layout(a)[k]
               else if k < TCP + 16 then Layout(b)[k - TCP]
               else if k < TCP + 18 then FieldCells(c)[k - TCP - 16]
               else if k < HDRS then FieldCells(d)[k - TCP - 18]
               else Layout(payload)[k - HDRS]
  {
    HeaderCells(a, b, c, d, payload);
    SizeOfThirteen(a);
    LayoutSize(a);
    OffsetsOfSix(b);
  }

  predicate PlainHeaders(a: seq<Field>, b: seq<Field>, c: Field, d: Field) {
    && HasHeaders(a, b, c, d) && Plain(a) && Plain(b) && d.source.Immediate?
    && FieldCells(c)[0] == Hw(19, false, true) && FieldCells(c)[1] == Hw(18, false, true)
  }

  lemma HeadersMapApart(a: seq<Field>, b: seq<Field>, c: Field, d: Field, payload: seq<Field>)
    requires PlainHeaders(a, b, c, d) && Plain(payload)
    ensures MapsApart(Layout(a + (b + [c, d]) + payload))
  {
    var cells := Layout(a + (b + [c, d]) + payload);
    HeadersShape(a, b, c, d, payload);
    HeaderCell(a, b, c, d, payload, TCP + 16);
    HeaderCell(a, b, c, d, payload, TCP + 17);
    forall k | 0 <= k < |cells| && k != TCP + 16 && k != TCP + 17
      ensures cells[k].Hw? ==> IsSummed(cells[k]) && 8 <= cells[k].h && cells[k].h != 18 && cells[k].h != 19
    {
      HeaderCell(a, b, c, d, payload, k);
      if k < TCP {
        PlainCell(a, k);
      } else if k < TCP + 16 {
        PlainCell(b, k - TCP);
      } else if HDRS <= k {
        PlainCell(payload, k - HDRS);
      }
    }
  }

  lemma DriverMapsApart(payload: seq<Field>)
    requires Plain(payload)
    ensures MapsApart(Layout(TCP_HEADERS + payload))
  {
    DriverHeaders();
    ChecksumCells();
    HeadersMapApart(ETH_IP_HEADERS, TCP_TO_CHECKSUM, TCP_CHECKSUM, Imm(2), payload);
  }

  lemma ChecksumCells()
    ensures FieldCells(TCP_CHECKSUM)[0] == Hw(19, false, true) && FieldCells(TCP_CHECKSUM)[1] == Hw(18, false, true)
  {
    StartsAt(TcpChckSum);
  }

  // The payloads of all the driver's templates are plain.
  lemma DriverPayloadsArePlain()
    ensures Plain(FIRE_NEW_PAYLOAD) && Plain(FIRE_REPLACE_PAYLOAD) && Plain(BOE_PAYLOAD)
    ensures Plain([Imm(MAX_ETH_FRAME_SIZE - HDRS)])
  {
  }

  // So the arrays of the new-order template make packets that verify, exactly from 65 bytes
  // of payload on.
  lemma FireNewEmits(t: EpmTemplate, image: seq<Byte>, pseudo: nat)
    requires Ready(t) && t.templateStruct == MOEX_FIRE_NEW
    requires Handed(image, Layout(MOEX_FIRE_NEW), pseudo) && IsTcpPacket(image)
    ensures (forall hw: Registers ::
               var pkt := Emitted(t, image, pseudo, hw);
               IsTcpPacket(pkt) && IpVerifies(pkt) && TcpVerifies(pkt))
            <==> HDRS + 65 <= |image|
  {
    MoexFireNewPackets(|image|);
    DriverPayloadsArePlain();
    DriverMapsApart(FIRE_NEW_PAYLOAD);
    EmittedVerifiesExactly(t, image, pseudo);
  }
}
