// The packets that go out by the driver's templates.
module DriverPackets {
  import opened PacketImage
  import opened PseudoChecksum
  import opened Template
  import opened TemplateChecksum
  import opened TemplateInstances

  // ----- what the templates clear -----

  lemma OffsetsOfSix(b: seq<Field>)
    requires |b| == 6
    requires b[0].size == 2 && b[1].size == 2 && b[2].size == 4 && b[3].size == 4 && b[4].size == 2 && b[5].size == 2
    ensures Offset(b, 0) == 0 && Offset(b, 1) == 2 && Offset(b, 2) == 4 && Offset(b, 3) == 8
    ensures Offset(b, 4) == 12 && Offset(b, 5) == 14 && |Layout(b)| == 16
  {
    assert b[..0] == [] && b[..6] == b;
    OffsetNext(b, 0);
    OffsetNext(b, 1);
    OffsetNext(b, 2);
    OffsetNext(b, 3);
    OffsetNext(b, 4);
    OffsetNext(b, 5);
  }

  lemma HeadersClear(a: seq<Field>, b: seq<Field>, c: Field, d: Field, rest: seq<Field>, k: nat)
    requires HasHeaders(a, b, c, d) && k < HDRS
    ensures var cells := Layout(a + (b + [c, d]) + rest);
            k < |cells| && (cells[k].clear ==> 38 <= k < 46 || 48 <= k < 52)
  {
    var cells := Layout(a + (b + [c, d]) + rest);
    HeaderCells(a, b, c, d, rest);
    SizeOfThirteen(a);
    LayoutSize(a);
    OffsetsOfSix(b);
    if k < 34 {
      var i, x := Locate(a, k);
      assert cells[k] == Layout(a)[k];
    } else if k < 50 {
      var i, x := Locate(b, k - 34);
      assert cells[k] == Layout(b)[k - 34];
    } else if 52 <= k {
      assert cells[k] == FieldCells(d)[k - 52];
    }
  }

  // A payload that a slot holds after the headers, or that clears nothing.
  predicate Fits(payload: seq<Field>, slot: nat) {
    HDRS + TotalSize(payload) <= slot || (HDRS <= slot && forall i :: 0 <= i < |payload| ==> !payload[i].clear)
  }

  lemma PayloadCell(h: seq<Field>, payload: seq<Field>, k: nat)
    requires |Layout(h)| <= k < |Layout(h + payload)|
    ensures k < |Layout(h)| + TotalSize(payload)
    ensures (forall i :: 0 <= i < |payload| ==> !payload[i].clear) ==> !Layout(h + payload)[k].clear
  {
    LayoutAppend(h, payload);
    LayoutSize(payload);
    var i, x := Locate(payload, k - |Layout(h)|);
  }

  lemma HeaderSize(a: seq<Field>, b: seq<Field>, c: Field, d: Field)
    requires HasHeaders(a, b, c, d)
    ensures |Layout(a + (b + [c, d]))| == HDRS
  {
    HeadersShape(a, b, c, d, []);
    assert a + (b + [c, d]) + [] == a + (b + [c, d]);
  }

  lemma ClearFits(a: seq<Field>, b: seq<Field>, c: Field, d: Field, payload: seq<Field>, slot: nat)
    requires HasHeaders(a, b, c, d) && Fits(payload, slot)
    ensures TcpTemplate(Layout(a + (b + [c, d]) + payload), slot)
  {
    var cells := Layout(a + (b + [c, d]) + payload);
    HeaderSize(a, b, c, d);
    forall k | 0 <= k < |cells| && cells[k].clear
      ensures k < slot && (38 <= k < 46 || 48 <= k < 52 || HDRS <= k)
    {
      if k < HDRS {
        HeadersClear(a, b, c, d, payload, k);
      } else {
        PayloadCell(a + (b + [c, d]), payload, k);
      }
    }
  }

  // So a template of the driver's headers suits the slot.
  lemma TemplateFits(payload: seq<Field>, slot: nat)
    requires Fits(payload, slot)
    ensures TcpTemplate(Layout(TCP_HEADERS + payload), slot) && |Layout(TCP_HEADERS)| == HDRS
  {
    DriverHeaders();
    HeaderSize(ETH_IP_HEADERS, TCP_TO_CHECKSUM, TCP_CHECKSUM, Imm(2));
    ClearFits(ETH_IP_HEADERS, TCP_TO_CHECKSUM, TCP_CHECKSUM, Imm(2), payload, slot);
  }

  // ----- the last register byte -----

  lemma LastCell(front: seq<Field>)
    requires front != [] && IsHw(front[|front| - 1]) && front[|front| - 1].size > 0
    ensures 0 < |Layout(front)| == TotalSize(front) && IsSummed(Layout(front)[|Layout(front)| - 1])
  {
    var last := |front| - 1;
    LayoutSize(front);
    LayoutAt(front, last);
    assert front[..last + 1] == front;
    var b := front[last].size - 1;
    assert Layout(front)[Offset(front, last) + b] == CellOf(front[last], b);
  }

  lemma NoRegisterBytes(tail: seq<Field>)
    requires forall i :: 0 <= i < |tail| ==> !IsHw(tail[i])
    ensures NoneBehind(Layout(tail), 0)
  {
    forall k | 0 <= k < |Layout(tail)| ensures !IsSummed(Layout(tail)[k]) {
      UnsummedCell(tail, k);
    }
  }

  lemma LastRegisterByte(h: seq<Field>, front: seq<Field>, tail: seq<Field>, m: nat)
    requires front != [] && IsHw(front[|front| - 1]) && front[|front| - 1].size > 0
    requires forall i :: 0 <= i < |tail| ==> !IsHw(tail[i])
    ensures NoneBehind(Layout(h + (front + tail)), m) <==> |Layout(h)| + TotalSize(front) <= m
  {
    LayoutAppend(h, front + tail);
    LayoutAppend(front, tail);
    LastCell(front);
    NoRegisterBytes(tail);
    LastOfThree(Layout(h), Layout(front), Layout(tail), m);
  }

  lemma LastOfThree(h: seq<Cell>, front: seq<Cell>, tail: seq<Cell>, m: nat)
    requires front != [] && IsSummed(front[|front| - 1]) && NoneBehind(tail, 0)
    ensures NoneBehind(h + (front + tail), m) <==> |h| + |front| <= m
  {
    var cells, n := h + (front + tail), |h| + |front|;
    assert cells[n - 1] == front[|front| - 1];
    assert forall k :: n <= k < |cells| ==> cells[k] == tail[k - n];
  }

  lemma SizeOfTwelve(a: seq<Field>)
    requires |a| == 12
    ensures TotalSize(a) == a[0].size + a[1].size + a[2].size + a[3].size + a[4].size + a[5].size + a[6].size
                            + a[7].size + a[8].size + a[9].size + a[10].size + a[11].size
  {
    SizeOfSix(a, 0);
    SizeOfSix(a, 6);
    assert a[0..] == a && a[12..] == [];
  }

  lemma SizeOfEleven(a: seq<Field>)
    requires |a| == 11
    ensures TotalSize(a) == a[0].size + a[1].size + a[2].size + a[3].size + a[4].size + a[5].size + a[6].size
                            + a[7].size + a[8].size + a[9].size + a[10].size
  {
    SizeOfSix(a, 0);
    SizeFrom(a, 6);
    SizeFrom(a, 7);
    SizeFrom(a, 8);
    SizeFrom(a, 9);
    SizeFrom(a, 10);
    assert a[0..] == a && a[11..] == [];
  }

  // ----- the instances -----

  // The payload's register bytes end with the last field of front.
  predicate EndsIn(payload: seq<Field>, front: seq<Field>) {
    && front != [] && IsHw(front[|front| - 1]) && front[|front| - 1].size > 0
    && |front| <= |payload| && payload[..|front|] == front
    && forall i :: |front| <= i < |payload| ==> !IsHw(payload[i])
  }

  lemma ShortPackets(payload: seq<Field>, front: seq<Field>, m: nat)
    requires PayloadOk(payload) && Short(payload) && EndsIn(payload, front)
    ensures var cells := Layout(TCP_HEADERS + payload);
            && Suits(cells) && TcpTemplate(cells, MAX_ETH_FRAME_SIZE) && |cells| <= MAX_ETH_FRAME_SIZE
            && (NoneBehind(cells, m) <==> HDRS + TotalSize(front) <= m)
  {
    ShortTemplateVerifies(payload);
    TemplateFits(payload, MAX_ETH_FRAME_SIZE);
    LastRegisterByte(TCP_HEADERS, front, payload[|front|..], m);
    assert payload == front + payload[|front|..];
  }

  lemma FireNewFront() returns (front: seq<Field>)
    ensures Short(FIRE_NEW_PAYLOAD) && EndsIn(FIRE_NEW_PAYLOAD, front) && TotalSize(front) == 65
  {
    front := FIRE_NEW_PAYLOAD[..12];
    SizeOfTwelve(front);
  }

  lemma FireReplaceFront() returns (front: seq<Field>)
    ensures Short(FIRE_REPLACE_PAYLOAD) && EndsIn(FIRE_REPLACE_PAYLOAD, front) && TotalSize(front) == 57
  {
    front := FIRE_REPLACE_PAYLOAD[..11];
    SizeOfEleven(front);
  }

  // The side of the order, the last register byte of a new order, ends after 65 bytes of
  // payload: exactly the packets at least that long verify for every register file.
  lemma MoexFireNewPackets(m: nat)
    ensures var cells := Layout(MOEX_FIRE_NEW);
            && Suits(cells) && TcpTemplate(cells, MAX_ETH_FRAME_SIZE) && |cells| <= MAX_ETH_FRAME_SIZE
            && (NoneBehind(cells, m) <==> HDRS + 65 <= m)
  {
    FireNewOk();
    var front := FireNewFront();
    ShortPackets(FIRE_NEW_PAYLOAD, front, m);
  }

  lemma MoexFireReplacePackets(m: nat)
    ensures var cells := Layout(MOEX_FIRE_REPLACE);
            && Suits(cells) && TcpTemplate(cells, MAX_ETH_FRAME_SIZE) && |cells| <= MAX_ETH_FRAME_SIZE
            && (NoneBehind(cells, m) <==> HDRS + 57 <= m)
  {
    FireReplaceOk();
    var front := FireReplaceFront();
    ShortPackets(FIRE_REPLACE_PAYLOAD, front, m);
  }

  // Fast path packets verify at every length and from every slot.
  lemma FastPathPackets(slot: nat, m: nat)
    requires HDRS <= slot && HDRS <= m
    ensures var cells := Layout(FAST_PATH);
            && Suits(cells) && TcpTemplate(cells, slot) && |cells| <= MAX_ETH_FRAME_SIZE && NoneBehind(cells, m)
  {
    var payload := [Imm(MAX_ETH_FRAME_SIZE - HDRS)];
    FastPathVerifies();
    DriverTemplateVerifies(payload);
    TemplateFits(payload, slot);
    LayoutAppend(TCP_HEADERS, payload);
    forall k | m <= k < |Layout(FAST_PATH)| ensures !IsSummed(Layout(FAST_PATH)[k]) {
      UnsummedCell(payload, k - HDRS);
    }
  }

  // The image of a cancel is written as any other; its template alone is at fault.
  lemma CancelBoeFits()
    ensures TcpTemplate(Layout(CANCEL_BOE), MAX_ETH_FRAME_SIZE) && !Suits(Layout(CANCEL_BOE))
  {
    CancelBoeUse();
    assert IsSummed(Layout(CANCEL_BOE)[127]) && !Layout(CANCEL_BOE)[127].clear;
    SeventeenFit(BOE_PAYLOAD);
    TemplateFits(BOE_PAYLOAD, MAX_ETH_FRAME_SIZE);
  }

  lemma SeventeenFit(payload: seq<Field>)
    requires |payload| == 17 && Short(payload)
    ensures Fits(payload, MAX_ETH_FRAME_SIZE)
  {
    SizeBound(payload, 20);
  }
}
