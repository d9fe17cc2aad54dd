// Where the fire templates of Moex put each register: the byte map in figures.
module TemplateMaps {
  import opened Checksum
  import opened DriverPackets
  import opened PseudoChecksum
  import opened Template
  import opened TemplateInstances

  // The n packet bytes from at on come from the n register bytes from first on, in order or,
  // as numbers in network order do, the last one first.
  predicate Sources(entries: seq<Byte>, at: nat, n: nat, first: nat, inOrder: bool) {
    forall b :: 0 <= b < n ==> ComesFrom(entries, at, n, first, inOrder, b)
  }

  predicate ComesFrom(entries: seq<Byte>, at: nat, n: nat, first: nat, inOrder: bool, b: nat) {
    at + b < |entries| && entries[at + b] as int == if inOrder then first + b else first + n - 1 - b
  }

  lemma FieldSources(entries: seq<Byte>, fs: seq<Field>, i: nat)
    requires MapOf(entries, fs) && i < |fs| && RegisterStart(fs[i].source) + fs[i].size <= 0x100
    requires !fs[i].source.Immediate?
    ensures Sources(entries, Offset(fs, i), fs[i].size, RegisterStart(fs[i].source), fs[i].swap)
  {
    var at, n, first := Offset(fs, i), fs[i].size, RegisterStart(fs[i].source);
    forall b | 0 <= b < n ensures ComesFrom(entries, at, n, first, fs[i].swap, b) {
      assert EntryOf(entries, fs, i, b);
    }
  }

  lemma OffsetBehind(a: seq<Field>, b: seq<Field>, i: nat)
    requires i <= |b|
    ensures Offset(a + b, |a| + i) == |Layout(a)| + Offset(b, i)
  {
    assert (a + b)[..|a| + i] == a + b[..i];
    LayoutAppend(a, b[..i]);
  }

  lemma OffsetBefore(a: seq<Field>, b: seq<Field>, i: nat)
    requires i <= |a|
    ensures Offset(a + b, i) == Offset(a, i)
  {
    assert (a + b)[..i] == a[..i];
  }

  // ----- the headers -----

  lemma HeaderOffset(a: seq<Field>, b: seq<Field>, c: Field, d: Field, rest: seq<Field>, j: nat)
    requires HasHeaders(a, b, c, d) && j <= 6
    ensures var fs := a + (b + [c, d]) + rest;
            13 + j < |fs| && fs[13 + j] == (if j < 6 then b[j] else c) && Offset(fs, 13 + j) == TCP + Offset(b, j)
  {
    OffsetBefore(a + (b + [c, d]), rest, 13 + j);
    OffsetBehind(a, b + [c, d], j);
    OffsetBefore(b, [c, d], j);
    SizeOfThirteen(a);
    LayoutSize(a);
  }

  // Sequence, acknowledgement, window and checksum of the TCP header, highest byte first.
  predicate HeaderSources(entries: seq<Byte>) {
    && Sources(entries, 38, 4, 8, false) && Sources(entries, 42, 4, 12, false)
    && Sources(entries, 48, 2, 16, false) && Sources(entries, 50, 2, 18, false)
  }

  lemma HeaderFieldSources(entries: seq<Byte>, payload: seq<Field>)
    requires MapOf(entries, TCP_HEADERS + payload)
    ensures HeaderSources(entries)
  {
    DriverHeaders();
    HeaderSourcesOf(entries, ETH_IP_HEADERS, TCP_TO_CHECKSUM, TCP_CHECKSUM, Imm(2), payload);
  }

  predicate LateHeaders(b: seq<Field>, c: Field) {
    && |b| == 6 && b[2] == Field(4, LocalSeq, false, true) && b[3] == Field(4, RemoteSeq, false, true)
    && b[5] == Field(2, TcpWindow, false, true) && c == Field(2, TcpChckSum, false, true)
  }

  lemma HeaderSourcesOf(entries: seq<Byte>, a: seq<Field>, b: seq<Field>, c: Field, d: Field, rest: seq<Field>)
    requires HasHeaders(a, b, c, d) && LateHeaders(b, c) && MapOf(entries, a + (b + [c, d]) + rest)
    ensures HeaderSources(entries)
  {
    var fs := a + (b + [c, d]) + rest;
    OffsetsOfSix(b);
    assert b[..6] == b;
    HeaderOffset(a, b, c, d, rest, 2);
    HeaderOffset(a, b, c, d, rest, 3);
    HeaderOffset(a, b, c, d, rest, 5);
    HeaderOffset(a, b, c, d, rest, 6);
    FieldSources(entries, fs, 15);
    FieldSources(entries, fs, 16);
    FieldSources(entries, fs, 18);
    FieldSources(entries, fs, 19);
  }

  // ----- the payloads -----

  lemma PayloadSources(entries: seq<Byte>, h: seq<Field>, p: seq<Field>, i: nat, at: nat)
    requires MapOf(entries, h + p) && i < |p| && p[i].size > 0 && !p[i].source.Immediate?
    requires RegisterStart(p[i].source) + p[i].size <= 0x100 && |Layout(h)| + Offset(p, i) == at
    ensures Sources(entries, at, p[i].size, RegisterStart(p[i].source), p[i].swap)
  {
    OffsetBehind(h, p, i);
    FieldSources(entries, h + p, |h| + i);
  }

  lemma OffsetsOfTwelve(p: seq<Field>)
    requires |p| >= 12
    ensures Offset(p, 4) == p[0].size + p[1].size + p[2].size + p[3].size
    ensures Offset(p, 5) == Offset(p, 4) + p[4].size && Offset(p, 6) == Offset(p, 5) + p[5].size
    ensures Offset(p, 7) == Offset(p, 6) + p[6].size && Offset(p, 8) == Offset(p, 7) + p[7].size
    ensures Offset(p, 9) == Offset(p, 8) + p[8].size && Offset(p, 10) == Offset(p, 9) + p[9].size
    ensures Offset(p, 11) == Offset(p, 10) + p[10].size
  {
    assert p[..0] == [];
    OffsetNext(p, 0);
    OffsetNext(p, 1);
    OffsetNext(p, 2);
    OffsetNext(p, 3);
    OffsetNext(p, 4);
    OffsetNext(p, 5);
    OffsetNext(p, 6);
    OffsetNext(p, 7);
    OffsetNext(p, 8);
    OffsetNext(p, 9);
    OffsetNext(p, 10);
  }

  predicate IsFireNew(p: seq<Field>) {
    && |p| == 25 && p[0].size == 2 && p[1].size == 2 && p[2].size == 2 && p[3].size == 2
    && p[4] == Field(8, Time, false, true) && p[5] == Field(8, SecurityId, true, true) && p[6].size == 8
    && p[7] == Field(8, Price, true, true) && p[8] == Field(8, Size, true, true)
    && p[9].size == 8 && p[10].size == 8 && p[11] == Field(1, Side, true, true)
  }

  lemma FireNewSourcesOf(entries: seq<Byte>, h: seq<Field>, p: seq<Field>)
    requires |Layout(h)| == HDRS && IsFireNew(p) && MapOf(entries, h + p)
    ensures Sources(entries, 62, 8, 37, false) && Sources(entries, 70, 8, 77, true)
    ensures Sources(entries, 86, 8, 20, true) && Sources(entries, 94, 8, 28, true) && Sources(entries, 118, 1, 36, true)
  {
    OffsetsOfTwelve(p);
    PayloadSources(entries, h, p, 4, 62);
    PayloadSources(entries, h, p, 5, 70);
    PayloadSources(entries, h, p, 7, 86);
    PayloadSources(entries, h, p, 8, 94);
    PayloadSources(entries, h, p, 11, 118);
  }

  // A new order takes its sending time from the lower half of the time register, highest
  // byte first, and order id, price, quantity and side as their registers hold them.
  lemma FireNewSources(entries: seq<Byte>)
    requires MapOf(entries, MOEX_FIRE_NEW)
    ensures HeaderSources(entries)
    ensures Sources(entries, 62, 8, 37, false) && Sources(entries, 70, 8, 77, true)
    ensures Sources(entries, 86, 8, 20, true) && Sources(entries, 94, 8, 28, true) && Sources(entries, 118, 1, 36, true)
  {
    HeaderFieldSources(entries, FIRE_NEW_PAYLOAD);
    TemplateFits([], MAX_ETH_FRAME_SIZE);
    FireNewSourcesOf(entries, TCP_HEADERS, FIRE_NEW_PAYLOAD);
  }

  predicate IsFireReplace(p: seq<Field>) {
    && |p| == 18 && p[0].size == 2 && p[1].size == 2 && p[2].size == 2 && p[3].size == 2
    && p[4].size == 8 && p[5] == Field(8, SecurityId, true, true) && p[6].size == 8
    && p[7] == Field(8, AskPrice, true, true) && p[8] == Field(8, Price, true, true)
    && p[9] == Field(8, Size, true, true) && p[10] == Field(1, Side, true, true)
  }

  lemma FireReplaceSourcesOf(entries: seq<Byte>, h: seq<Field>, p: seq<Field>)
    requires |Layout(h)| == HDRS && IsFireReplace(p) && MapOf(entries, h + p)
    ensures Sources(entries, 70, 8, 77, true) && Sources(entries, 86, 8, 61, true)
    ensures Sources(entries, 94, 8, 20, true) && Sources(entries, 102, 8, 28, true) && Sources(entries, 110, 1, 36, true)
  {
    OffsetsOfTwelve(p);
    PayloadSources(entries, h, p, 5, 70);
    PayloadSources(entries, h, p, 7, 86);
    PayloadSources(entries, h, p, 8, 94);
    PayloadSources(entries, h, p, 9, 102);
    PayloadSources(entries, h, p, 10, 110);
  }

  // A replacement takes the original order's id from the ask price register.
  lemma FireReplaceSources(entries: seq<Byte>)
    requires MapOf(entries, MOEX_FIRE_REPLACE)
    ensures HeaderSources(entries)
    ensures Sources(entries, 70, 8, 77, true) && Sources(entries, 86, 8, 61, true)
    ensures Sources(entries, 94, 8, 20, true) && Sources(entries, 102, 8, 28, true) && Sources(entries, 110, 1, 36, true)
  {
    HeaderFieldSources(entries, FIRE_REPLACE_PAYLOAD);
    TemplateFits([], MAX_ETH_FRAME_SIZE);
    FireReplaceSourcesOf(entries, TCP_HEADERS, FIRE_REPLACE_PAYLOAD);
  }

  // A cancel takes the counter twice and the time, whose field is not cleared, at its end.
  predicate IsCancel(p: seq<Field>) {
    && |p| == 17 && p[0].size == 2 && p[1].size == 2 && p[2].size == 1 && p[3].size == 1 && p[4].size == 4
    && p[5].size == 11 && p[6] == Field(8, AsciiCnt, false, true)
    && p[7].size == 1 && p[8].size == 1 && p[9].size == 1 && p[10].size == 1 && p[11].size == 4 && p[12].size == 11
    && p[13] == Field(8, AsciiCnt, false, true) && p[14].size == 1 && p[15].size == 16
    && p[16] == Field(8, Time, false, false)
  }

  lemma CancelOffsets(p: seq<Field>)
    requires IsCancel(p)
    ensures Offset(p, 6) == 21 && Offset(p, 13) == 48 && Offset(p, 16) == 73
  {
    OffsetsOfTwelve(p);
    OffsetNext(p, 11);
    OffsetNext(p, 12);
    OffsetNext(p, 13);
    OffsetNext(p, 14);
    OffsetNext(p, 15);
  }

  lemma CancelSourcesOf(entries: seq<Byte>, h: seq<Field>, p: seq<Field>)
    requires |Layout(h)| == HDRS && IsCancel(p) && MapOf(entries, h + p)
    ensures Sources(entries, 75, 8, 85, false) && Sources(entries, 102, 8, 85, false) && Sources(entries, 127, 8, 37, false)
  {
    CancelOffsets(p);
    PayloadSources(entries, h, p, 6, 75);
    PayloadSources(entries, h, p, 13, 102);
    PayloadSources(entries, h, p, 16, 127);
  }

  lemma CancelBoeSources(entries: seq<Byte>)
    requires MapOf(entries, CANCEL_BOE)
    ensures HeaderSources(entries)
    ensures Sources(entries, 75, 8, 85, false) && Sources(entries, 102, 8, 85, false) && Sources(entries, 127, 8, 37, false)
  {
    HeaderFieldSources(entries, BOE_PAYLOAD);
    TemplateFits([], MAX_ETH_FRAME_SIZE);
    CancelSourcesOf(entries, TCP_HEADERS, BOE_PAYLOAD);
  }
}
