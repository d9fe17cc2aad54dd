// The templates the driver ships.
module TemplateInstances {
  import opened Arith
  import opened Checksum
  import opened PseudoChecksum
  import opened Template
  import opened TemplateChecksum
  import opened TemplateReceiver

  function Imm(size: nat): Field { Field(size, Immediate, false, false) }

  // Ethernet and IP headers, then the TCP header up to and from its checksum; the same in
  // every TCP template.
  const ETH_IP_HEADERS: seq<Field> := [
    Imm(6), Imm(6), Imm(2),
    Imm(1), Imm(1), Imm(2), Imm(2), Imm(2), Imm(1), Imm(1), Imm(2), Imm(4), Imm(4)]
  const TCP_TO_CHECKSUM: seq<Field> := [
    Imm(2), Imm(2), Field(4, LocalSeq, false, true), Field(4, RemoteSeq, false, true), Imm(2),
    Field(2, TcpWindow, false, true)]
  const TCP_CHECKSUM: Field := Field(2, TcpChckSum, false, true)
  const TCP_HEADERS: seq<Field> := ETH_IP_HEADERS + (TCP_TO_CHECKSUM + [TCP_CHECKSUM, Imm(2)])

  const FIRE_NEW_PAYLOAD: seq<Field> := [
    Imm(2), Imm(2), Imm(2), Imm(2),
    Field(8, Time, false, true), Field(8, SecurityId, true, true), Imm(8),
    Field(8, Price, true, true), Field(8, Size, true, true), Imm(8), Imm(8),
    Field(1, Side, true, true), Imm(1), Imm(1), Imm(1), Imm(1), Imm(1), Imm(1),
    Imm(12), Imm(12), Imm(12), Imm(4), Imm(12), Imm(20), Imm(1)]
  const MOEX_FIRE_NEW: seq<Field> := TCP_HEADERS + FIRE_NEW_PAYLOAD

  const FIRE_REPLACE_PAYLOAD: seq<Field> := [
    Imm(2), Imm(2), Imm(2), Imm(2),
    Imm(8), Field(8, SecurityId, true, true), Imm(8), Field(8, AskPrice, true, true),
    Field(8, Price, true, true), Field(8, Size, true, true), Field(1, Side, true, true),
    Imm(12), Imm(12), Imm(12), Imm(4), Imm(12), Imm(20), Imm(1)]
  const MOEX_FIRE_REPLACE: seq<Field> := TCP_HEADERS + FIRE_REPLACE_PAYLOAD

  const BOE_PAYLOAD: seq<Field> := [
    Imm(2), Imm(2), Imm(1), Imm(1), Imm(4), Imm(11), Field(8, AsciiCnt, false, true), Imm(1),
    Imm(1), Imm(1), Imm(1), Imm(4), Imm(11), Field(8, AsciiCnt, false, true), Imm(1),
    Imm(16), Field(8, Time, false, false)]
  const CANCEL_BOE: seq<Field> := TCP_HEADERS + BOE_PAYLOAD

  const FAST_PATH: seq<Field> := TCP_HEADERS + [Imm(MAX_ETH_FRAME_SIZE - HDRS)]

  // ----- a field-level test -----

  predicate IsHw(f: Field) { !f.source.Immediate? && !f.source.TcpChckSum? }

  // Each register field is used once, is cleared and is not longer than the register field.
  predicate FieldsOk(fs: seq<Field>) {
    && (forall i :: 0 <= i < |fs| && IsHw(fs[i]) ==> FieldOk(fs[i]))
    && (forall i, j :: 0 <= i < j < |fs| && IsHw(fs[i]) && IsHw(fs[j]) ==> fs[i].source != fs[j].source)
  }

  predicate FieldOk(f: Field) {
    f.clear && f.size <= FIELD_SIZES[f.source.Index()]
  }

  lemma HwByteRange(f: Field, b: nat)
    requires b < f.size && FieldOk(f)
    ensures var i := f.source.Index(); StartOf(i) <= HwByte(f, b) < StartOf(i) + FIELD_SIZES[i]
    ensures HwByte(f, b)
            == if f.swap then StartOf(f.source.Index()) + b else StartOf(f.source.Index()) + f.size - b - 1
  {
    var i := f.source.Index();
    FieldsAreDisjoint(i, i + 1);
    var h := if f.swap then StartOf(i) + b else StartOf(i) + f.size - b - 1;
    ModUnique(h, 0x100, 0, h);
  }

  lemma FieldsOkIsWellFormed(fs: seq<Field>)
    requires FieldsOk(fs)
    ensures WellFormed(Layout(fs))
  {
    var cells := Layout(fs);
    forall k | 0 <= k < |cells| && IsSummed(cells[k]) ensures cells[k].clear {
      var i, b := Locate(fs, k);
    }
    forall j, k | 0 <= j < k < |cells| ensures !SameTarget(cells, j, k) {
      if SameTarget(cells, j, k) {
        var i1, b1 := Locate(fs, j);
        var i2, b2 := Locate(fs, k);
        SameRegisterByte(fs[i1], b1, fs[i2], b2);
        assert false;
      }
    }
  }

  // One register field may be used twice, when the two uses lie an odd distance apart.
  predicate UsedTwice(fs: seq<Field>, a: nat, b: nat) {
    && a < b < |fs| && fs[a].size == fs[b].size && fs[a].swap == fs[b].swap
    && (Offset(fs, b) - Offset(fs, a)) % 2 == 1
  }

  predicate OnceBut(fs: seq<Field>, a: nat, b: nat) {
    forall i, j :: 0 <= i < j < |fs| && IsHw(fs[i]) && IsHw(fs[j]) && fs[i].source == fs[j].source ==> i == a && j == b
  }

  predicate HwFieldsOk(fs: seq<Field>) {
    forall i :: 0 <= i < |fs| && IsHw(fs[i]) ==> FieldOk(fs[i])
  }

  lemma TwiceIsWellFormed(fs: seq<Field>, a: nat, b: nat)
    requires UsedTwice(fs, a, b) && OnceBut(fs, a, b) && HwFieldsOk(fs)
    ensures WellFormed(Layout(fs))
  {
    var cells := Layout(fs);
    forall k | 0 <= k < |cells| && IsSummed(cells[k]) ensures cells[k].clear {
      var i, c := Locate(fs, k);
    }
    forall j, k | 0 <= j < k < |cells| ensures !SameTarget(cells, j, k) {
      TwiceHasNoSameTarget(fs, a, b, j, k);
    }
  }

  lemma TwiceHasNoSameTarget(fs: seq<Field>, a: nat, b: nat, j: nat, k: nat)
    requires UsedTwice(fs, a, b) && OnceBut(fs, a, b) && HwFieldsOk(fs) && j < k < |Layout(fs)|
    ensures !SameTarget(Layout(fs), j, k)
  {
    if SameTarget(Layout(fs), j, k) {
      var i1, b1 := Locate(fs, j);
      var i2, b2 := Locate(fs, k);
      SameRegisterByte(fs[i1], b1, fs[i2], b2);
      if i1 < i2 {
        OddApart(fs, a, b, j, b1, k, b2);
      } else if i2 < i1 {
        OddApart(fs, a, b, k, b2, j, b1);
      }
      assert false;
    }
  }

  lemma OddApart(fs: seq<Field>, a: nat, b: nat, j: nat, b1: nat, k: nat, b2: nat)
    requires UsedTwice(fs, a, b) && j == Offset(fs, a) + b1 && k == Offset(fs, b) + b2 && b1 == b2
    ensures j % 2 != k % 2
  {
  }

  // The same register byte comes from the same field.
  lemma SameRegisterByte(f: Field, b: nat, g: Field, c: nat)
    requires b < f.size && FieldOk(f) && c < g.size && FieldOk(g) && HwByte(f, b) == HwByte(g, c)
    ensures f.source == g.source
    ensures f.size == g.size && f.swap == g.swap ==> b == c
  {
    HwByteRange(f, b);
    HwByteRange(g, c);
    var s1, s2 := f.source.Index(), g.source.Index();
    if s1 < s2 {
      FieldsAreDisjoint(s1, s2);
    } else if s2 < s1 {
      FieldsAreDisjoint(s2, s1);
    }
    SameIndex(f.source, g.source);
  }

  lemma SameIndex(a: HwField, b: HwField)
    ensures a.Index() == b.Index() ==> a == b
  {
  }

  // ----- sizes -----

  function TotalSize(fs: seq<Field>): nat {
    if fs == [] then 0 else fs[0].size + TotalSize(fs[1..])
  }

  lemma {:induction false} LayoutSize(fs: seq<Field>)
    ensures |Layout(fs)| == TotalSize(fs)
    decreases |fs|
  {
    if fs != [] {
      LayoutSize(fs[1..]);
    }
  }

  lemma SizeFrom(fs: seq<Field>, i: nat)
    requires i < |fs|
    ensures TotalSize(fs[i..]) == fs[i].size + TotalSize(fs[i + 1..])
  {
    assert fs[i..][1..] == fs[i + 1..];
  }

  lemma SizeOfSix(h: seq<Field>, i: nat)
    requires i + 6 <= |h|
    ensures TotalSize(h[i..]) == h[i].size + h[i + 1].size + h[i + 2].size + h[i + 3].size + h[i + 4].size
                             + h[i + 5].size + TotalSize(h[i + 6..])
  {
    SizeFrom(h, i);
    SizeFrom(h, i + 1);
    SizeFrom(h, i + 2);
    SizeFrom(h, i + 3);
    SizeFrom(h, i + 4);
    SizeFrom(h, i + 5);
  }

  lemma SizeOfThirteen(a: seq<Field>)
    requires |a| == 13
    ensures TotalSize(a) == a[0].size + a[1].size + a[2].size + a[3].size + a[4].size + a[5].size + a[6].size
                        + a[7].size + a[8].size + a[9].size + a[10].size + a[11].size + a[12].size
  {
    SizeOfSix(a, 0);
    SizeOfSix(a, 6);
    SizeFrom(a, 12);
    assert a[0..] == a && a[13..] == [];
  }

  lemma SizeOfSeventeen(a: seq<Field>)
    requires |a| == 17
    ensures TotalSize(a) == a[0].size + a[1].size + a[2].size + a[3].size + a[4].size + a[5].size + a[6].size
                            + a[7].size + a[8].size + a[9].size + a[10].size + a[11].size + a[12].size
                            + a[13].size + a[14].size + a[15].size + a[16].size
  {
    SizeOfSix(a, 0);
    SizeOfSix(a, 6);
    SizeFrom(a, 12);
    SizeFrom(a, 13);
    SizeFrom(a, 14);
    SizeFrom(a, 15);
    SizeFrom(a, 16);
    assert a[0..] == a && a[17..] == [];
  }

  lemma {:induction false} SizeBound(fs: seq<Field>, most: nat)
    requires forall i :: 0 <= i < |fs| ==> fs[i].size <= most
    ensures TotalSize(fs) <= |fs| * most
    decreases |fs|
  {
    if fs != [] {
      SizeBound(fs[1..], most);
      assert |fs| * most == (|fs| - 1) * most + most;
    }
  }

  // Fields before the TCP header, fields up to the checksum, the checksum, the urgent
  // pointer. Sequence, acknowledgement, window and checksum are cleared and nothing else.
  predicate HasHeaders(a: seq<Field>, b: seq<Field>, c: Field, d: Field) {
    && |a| == 13 && (forall i :: 0 <= i < 13 ==> a[i].source.Immediate? && !a[i].clear)
    && a[0].size + a[1].size + a[2].size + a[3].size + a[4].size + a[5].size + a[6].size
       + a[7].size + a[8].size + a[9].size + a[10].size + a[11].size + a[12].size == TCP
    && |b| == 6
    && b[0].size == 2 && b[1].size == 2 && b[2].size == 4 && b[3].size == 4 && b[4].size == 2 && b[5].size == 2
    && !b[0].clear && !b[1].clear && !b[4].clear
    && c.size == 2 && c.source.TcpChckSum? && c.clear && d.size == 2 && !d.clear
  }

  lemma LayoutPair(c: Field, d: Field)
    ensures Layout([c, d]) == FieldCells(c) + FieldCells(d)
  {
    assert [c, d][1..] == [d] && [d][1..] == [];
    assert Layout([d]) == FieldCells(d) + Layout([]);
    assert Layout([c, d]) == FieldCells(c) + Layout([d]);
  }

  lemma HeaderCells(a: seq<Field>, b: seq<Field>, c: Field, d: Field, rest: seq<Field>)
    ensures Layout(a + (b + [c, d]) + rest)
            == Layout(a) + (Layout(b) + (FieldCells(c) + FieldCells(d))) + Layout(rest)
  {
    LayoutAppend(a + (b + [c, d]), rest);
    LayoutAppend(a, b + [c, d]);
    LayoutAppend(b, [c, d]);
    LayoutPair(c, d);
  }

  lemma UnsummedCell(fs: seq<Field>, k: nat)
    requires k < |Layout(fs)| && forall i :: 0 <= i < |fs| ==> !IsHw(fs[i])
    ensures !IsSummed(Layout(fs)[k])
  {
    var i, b := Locate(fs, k);
  }

  // Whatever follows the headers, no register byte lies before the TCP header, and the
  // checksum field is cleared and not summed.
  lemma HeadersShape(a: seq<Field>, b: seq<Field>, c: Field, d: Field, rest: seq<Field>)
    requires HasHeaders(a, b, c, d)
    ensures var cells := Layout(a + (b + [c, d]) + rest);
            |cells| == HDRS + TotalSize(rest) && HasTcpHeader(cells)
  {
    var cells := Layout(a + (b + [c, d]) + rest);
    HeaderCells(a, b, c, d, rest);
    SizeOfThirteen(a);
    SizeOfSix(b, 0);
    assert b[0..] == b && b[6..] == [];
    LayoutSize(a);
    LayoutSize(b);
    LayoutSize(rest);
    forall k | 0 <= k < TCP ensures !IsSummed(cells[k]) {
      UnsummedCell(a, k);
    }
    forall k | TCP + 16 <= k < TCP + 18 ensures !IsSummed(cells[k]) && cells[k].clear {
      assert cells[k] == FieldCells(c)[k - TCP - 16];
    }
  }

  lemma DriverHeaders()
    ensures HasHeaders(ETH_IP_HEADERS, TCP_TO_CHECKSUM, TCP_CHECKSUM, Imm(2))
  {
  }

  // ----- the instances -----

  // Every packet that fills the template verifies at the receiver, whatever the registers
  // hold.
  ghost predicate Verifies(fs: seq<Field>) {
    var cells := Layout(fs);
    HasTcpHeader(cells) && |cells| <= TCP + ONES && FullPacketsVerify(cells)
  }

  lemma OkTemplateVerifies(a: seq<Field>, b: seq<Field>, c: Field, d: Field, rest: seq<Field>)
    requires HasHeaders(a, b, c, d) && FieldsOk(a + (b + [c, d]) + rest)
    requires TotalSize(rest) <= MAX_ETH_FRAME_SIZE - HDRS
    ensures Verifies(a + (b + [c, d]) + rest) && WellFormed(Layout(a + (b + [c, d]) + rest))
    ensures |Layout(a + (b + [c, d]) + rest)| == HDRS + TotalSize(rest)
  {
    FieldsOkIsWellFormed(a + (b + [c, d]) + rest);
    HeadersShape(a, b, c, d, rest);
    WellFormedVerifies(Layout(a + (b + [c, d]) + rest));
  }

  // The register fields of the TCP headers, and of nothing else.
  predicate IsHeaderSource(h: HwField) { h.LocalSeq? || h.RemoteSeq? || h.TcpWindow? }

  // What a payload after those headers must satisfy.
  predicate PayloadOk(fs: seq<Field>) {
    FieldsOk(fs) && forall i :: 0 <= i < |fs| && IsHw(fs[i]) ==> !IsHeaderSource(fs[i].source)
  }

  lemma HeaderFieldsOk()
    ensures FieldsOk(TCP_HEADERS)
    ensures forall i :: 0 <= i < |TCP_HEADERS| && IsHw(TCP_HEADERS[i]) ==> IsHeaderSource(TCP_HEADERS[i].source)
  {
  }

  lemma AppendOk(a: seq<Field>, b: seq<Field>)
    requires FieldsOk(a) && PayloadOk(b)
    requires forall i :: 0 <= i < |a| && IsHw(a[i]) ==> IsHeaderSource(a[i].source)
    ensures FieldsOk(a + b)
  {
  }

  lemma DriverTemplateVerifies(payload: seq<Field>)
    requires PayloadOk(payload) && TotalSize(payload) <= MAX_ETH_FRAME_SIZE - HDRS
    ensures Verifies(TCP_HEADERS + payload) && WellFormed(Layout(TCP_HEADERS + payload))
    ensures |Layout(TCP_HEADERS + payload)| == HDRS + TotalSize(payload)
  {
    HeaderFieldsOk();
    AppendOk(TCP_HEADERS, payload);
    DriverHeaders();
    OkTemplateVerifies(ETH_IP_HEADERS, TCP_TO_CHECKSUM, TCP_CHECKSUM, Imm(2), payload);
  }

  predicate AllDiffer(a: HwField, b: HwField, c: HwField, d: HwField, e: HwField) {
    a != b && a != c && a != d && a != e && b != c && b != d && b != e && c != d && c != e && d != e
  }

  // A payload with register fields in five places, which differ.
  lemma FiveRegisterFields(fs: seq<Field>, a: nat, b: nat, c: nat, d: nat, e: nat)
    requires a < b < c < d < e < |fs|
    requires forall i :: 0 <= i < |fs| && IsHw(fs[i]) ==> i == a || i == b || i == c || i == d || i == e
    requires forall i | i == a || i == b || i == c || i == d || i == e ::
      IsHw(fs[i]) && FieldOk(fs[i]) && !IsHeaderSource(fs[i].source)
    requires AllDiffer(fs[a].source, fs[b].source, fs[c].source, fs[d].source, fs[e].source)
    ensures PayloadOk(fs)
  {
  }

  lemma FireNewOk()
    ensures PayloadOk(FIRE_NEW_PAYLOAD)
  {
    FiveRegisterFields(FIRE_NEW_PAYLOAD, 4, 5, 7, 8, 11);
  }

  lemma FireReplaceOk()
    ensures PayloadOk(FIRE_REPLACE_PAYLOAD)
  {
    FiveRegisterFields(FIRE_REPLACE_PAYLOAD, 5, 7, 8, 9, 10);
  }

  predicate Short(payload: seq<Field>) {
    |payload| <= 25 && forall i :: 0 <= i < |payload| ==> payload[i].size <= 20
  }

  lemma ShortTemplateVerifies(payload: seq<Field>)
    requires PayloadOk(payload) && Short(payload)
    ensures Verifies(TCP_HEADERS + payload) && WellFormed(Layout(TCP_HEADERS + payload))
    ensures |Layout(TCP_HEADERS + payload)| == HDRS + TotalSize(payload) <= MAX_ETH_FRAME_SIZE
  {
    SizeBound(payload, 20);
    DriverTemplateVerifies(payload);
  }

  lemma MoexFireNewVerifies()
    ensures Verifies(MOEX_FIRE_NEW)
  {
    FireNewOk();
    ShortTemplateVerifies(FIRE_NEW_PAYLOAD);
  }

  lemma MoexFireReplaceVerifies()
    ensures Verifies(MOEX_FIRE_REPLACE)
  {
    FireReplaceOk();
    ShortTemplateVerifies(FIRE_REPLACE_PAYLOAD);
  }

  lemma FastPathVerifies()
    ensures Verifies(FAST_PATH) && |Layout(FAST_PATH)| == MAX_ETH_FRAME_SIZE
  {
    DriverTemplateVerifies([Imm(MAX_ETH_FRAME_SIZE - HDRS)]);
  }

  const BOE_TIME := 16   // in the payload
  const BOE_TIME_CLEARED: Field := Field(8, Time, false, true)

  lemma OffsetNext(fs: seq<Field>, i: nat)
    requires i < |fs|
    ensures Offset(fs, i + 1) == Offset(fs, i) + fs[i].size
  {
    LayoutAt(fs, i);
  }

  lemma TwiceAfter(h: seq<Field>, payload: seq<Field>, a: nat, b: nat)
    requires FieldsOk(h) && forall i :: 0 <= i < |h| && IsHw(h[i]) ==> IsHeaderSource(h[i].source)
    requires HwFieldsOk(payload) && OnceBut(payload, a, b)
    requires forall i :: 0 <= i < |payload| && IsHw(payload[i]) ==> !IsHeaderSource(payload[i].source)
    ensures HwFieldsOk(h + payload) && OnceBut(h + payload, |h| + a, |h| + b)
  {
    var fs := h + payload;
    assert forall i :: 0 <= i < |fs| ==> fs[i] == if i < |h| then h[i] else payload[i - |h|];
  }

  lemma BoeCounterApart(fs: seq<Field>)
    requires fs == TCP_HEADERS + BOE_PAYLOAD[BOE_TIME := BOE_TIME_CLEARED]
    ensures UsedTwice(fs, 27, 34)
  {
    OffsetNext(fs, 27);
    OffsetNext(fs, 28);
    OffsetNext(fs, 29);
    OffsetNext(fs, 30);
    OffsetNext(fs, 31);
    OffsetNext(fs, 32);
    OffsetNext(fs, 33);
  }

  lemma BoeTwice(payload: seq<Field>)
    requires payload == BOE_PAYLOAD[BOE_TIME := BOE_TIME_CLEARED]
    ensures HwFieldsOk(TCP_HEADERS + payload) && OnceBut(TCP_HEADERS + payload, 27, 34)
  {
    HeaderFieldsOk();
    TwiceAfter(TCP_HEADERS, payload, 6, 13);
  }

  lemma BoeWithTimeCleared(payload: seq<Field>)
    requires payload == BOE_PAYLOAD[BOE_TIME := BOE_TIME_CLEARED]
    ensures WellFormed(Layout(TCP_HEADERS + payload))
  {
    BoeCounterApart(TCP_HEADERS + payload);
    BoeTwice(payload);
    TwiceIsWellFormed(TCP_HEADERS + payload, 27, 34);
  }

  lemma BoeShape(payload: seq<Field>)
    requires payload == BOE_PAYLOAD[BOE_TIME := BOE_TIME_CLEARED]
    ensures |Layout(TCP_HEADERS + payload)| == 135 && HasTcpHeader(Layout(TCP_HEADERS + payload))
  {
    SizeOfSeventeen(payload);
    DriverHeaders();
    HeadersShape(ETH_IP_HEADERS, TCP_TO_CHECKSUM, TCP_CHECKSUM, Imm(2), payload);
  }

  // The BOE cancel leaves its time field uncleared. That is its only fault: its counter goes
  // in twice, at opposite parities, and with the time cleared it is right.
  lemma CancelBoeWithTimeCleared()
    ensures var cells := Layout(TCP_HEADERS + BOE_PAYLOAD[BOE_TIME := BOE_TIME_CLEARED]);
            && WellFormed(cells) && |cells| == 135
            && Verifies(TCP_HEADERS + BOE_PAYLOAD[BOE_TIME := BOE_TIME_CLEARED])
  {
    var payload := BOE_PAYLOAD[BOE_TIME := BOE_TIME_CLEARED];
    BoeWithTimeCleared(payload);
    BoeShape(payload);
    WellFormedVerifies(Layout(TCP_HEADERS + payload));
  }

  lemma LastPayloadField(h: seq<Field>, front: seq<Field>, f: Field)
    ensures Layout(h + (front + [f])) == Layout(h) + (Layout(front) + FieldCells(f))
  {
    LayoutAppend(h, front + [f]);
    LayoutAppend(front, [f]);
    assert [f][1..] == [];
    assert Layout([f]) == FieldCells(f) + Layout([]);
  }

  // A register field at the end that the template does not clear.
  lemma UnclearedLast(shared: seq<Cell>, f: Field, cells: seq<Cell>, other: seq<Cell>)
    requires cells == shared + FieldCells(f) && other == shared + FieldCells(f.(clear := true))
    requires IsHw(f) && !f.clear && AllCleared(other)
    ensures SameUse(cells, other)
    ensures forall k :: |shared| <= k < |cells| ==> IsSummed(cells[k])
    ensures forall k :: 0 <= k < |cells| && IsSummed(cells[k]) ==> (cells[k].clear <==> k < |shared|)
  {
    forall k | 0 <= k < |cells|
      ensures k < |shared| ==> cells[k] == other[k]
      ensures |shared| <= k ==> IsSummed(cells[k]) && !cells[k].clear && IsSummed(other[k]) && cells[k].h == other[k].h
    {
      if |shared| <= k {
        assert cells[k] == CellOf(f, k - |shared|) && other[k] == CellOf(f.(clear := true), k - |shared|);
      }
    }
  }

  // The cells of the cancel before its time field.
  function BeforeTime(): seq<Cell> { Layout(TCP_HEADERS) + Layout(BOE_PAYLOAD[..BOE_TIME]) }

  lemma CancelBoeCells()
    ensures Layout(CANCEL_BOE) == BeforeTime() + FieldCells(BOE_PAYLOAD[BOE_TIME])
    ensures Layout(TCP_HEADERS + BOE_PAYLOAD[BOE_TIME := BOE_TIME_CLEARED]) == BeforeTime() + FieldCells(BOE_TIME_CLEARED)
  {
    var front, time := BOE_PAYLOAD[..BOE_TIME], BOE_PAYLOAD[BOE_TIME];
    assert BOE_PAYLOAD == front + [time];
    assert BOE_PAYLOAD[BOE_TIME := BOE_TIME_CLEARED] == front + [BOE_TIME_CLEARED];
    LastPayloadField(TCP_HEADERS, front, time);
    LastPayloadField(TCP_HEADERS, front, BOE_TIME_CLEARED);
  }

  lemma CancelBoeUse()
    ensures var cells := Layout(CANCEL_BOE);
            && HasTcpHeader(cells) && |cells| == 135 && ExcessFits(cells)
            && (forall k :: 127 <= k < |cells| ==> IsSummed(cells[k]))
            && (forall k :: 0 <= k < |cells| && IsSummed(cells[k]) ==> (cells[k].clear <==> k < 127))
  {
    CancelBoeCells();
    CancelBoeWithTimeCleared();
    var cells := BeforeTime() + FieldCells(BOE_PAYLOAD[BOE_TIME]);
    var other := BeforeTime() + FieldCells(BOE_TIME_CLEARED);
    FullPacketsVerifyExactly(other);
    UnclearedLast(BeforeTime(), BOE_PAYLOAD[BOE_TIME], cells, other);
    forall h: Byte ensures Excess(cells, h) % ONES == 0 {
      SameExcess(cells, other, h);
    }
  }

  // A cancel verifies if and only if what it holds in the eight bytes of its time field
  // vanishes modulo 2^16 - 1, whatever the registers hold.
  lemma CancelBoeVerifiesExactly(pkt: seq<Byte>, hw: Registers)
    requires |pkt| == |Layout(CANCEL_BOE)|
    ensures var cells := Layout(CANCEL_BOE);
            && HasTcpHeader(cells) && |cells| == 135
            && (ReceiverSum(cells, pkt, hw, 101) == ONES <==> NetSum(pkt[127..135]) % ONES == 0)
  {
    var cells := Layout(CANCEL_BOE);
    CancelBoeUse();
    LeftoverDecides(cells, pkt, hw);
    assert cells[..135] == cells && pkt[..135] == pkt;
    LeftoverFrom(cells, pkt, 127, 135);
  }

  // So some cancel goes out with a wrong checksum.
  lemma CancelBoeIsWrong() returns (pkt: seq<Byte>, hw: Registers)
    ensures |pkt| == |Layout(CANCEL_BOE)| == 135
    ensures ReceiverSum(Layout(CANCEL_BOE), pkt, hw, 101) != ONES
  {
    CancelBoeUse();
    pkt, hw := UnitPacket(135, 127), NoRegisters();
    UnclearedIsWrong(Layout(CANCEL_BOE), 127);
    FullReceiver(Layout(CANCEL_BOE), pkt, hw);
  }
}
