// Packet templates: which hardware register byte lands on which packet byte, and how the
// FPGA adds those bytes to a checksum that was computed over the cleared packet.
module Template {
  import opened Checksum

  // ----- hardware fields -----

  datatype HwField =
    | Immediate | LocalSeq | RemoteSeq | TcpWindow | TcpChckSum
    | Price | Size | Side | Time | AppSeq | AskPrice | AskSize | SecurityId | AsciiCnt
  {
    function Index(): nat {
      match this
      case Immediate => 0 case LocalSeq => 1 case RemoteSeq => 2 case TcpWindow => 3
      case TcpChckSum => 4 case Price => 5 case Size => 6 case Side => 7 case Time => 8
      case AppSeq => 9 case AskPrice => 10 case AskSize => 11 case SecurityId => 12
      case AsciiCnt => 13
    }
  }

  const FIELD_COUNT := 14
  const FIELD_SIZES: seq<nat> := [8, 4, 4, 2, 2, 8, 8, 1, 16, 8, 8, 8, 8, 8]
  const HW_BYTES := 256
  const MAX_ETH_FRAME_SIZE := 1536

  function StartOf(i: nat): nat
    requires i <= FIELD_COUNT
  {
    if i == 0 then 0 else StartOf(i - 1) + FIELD_SIZES[i - 1]
  }

  // EpmHwFieldsMap: running starts.
  method FieldStarts() returns (start: array<nat>)
    ensures start.Length == FIELD_COUNT
    ensures forall i :: 0 <= i < FIELD_COUNT ==> start[i] == StartOf(i)
  {
    start := new nat[FIELD_COUNT];
    for i := 0 to FIELD_COUNT
      invariant forall j :: 0 <= j < i ==> start[j] == StartOf(j)
    {
      start[i] := if i == 0 then 0 else start[i - 1] + FIELD_SIZES[i - 1];
    }
  }

  // The fields occupy disjoint register bytes, all of them addressable by one byte.
  lemma {:induction false} FieldsAreDisjoint(i: nat, j: nat)
    requires i < j <= FIELD_COUNT
    ensures StartOf(i) + FIELD_SIZES[i] <= StartOf(j) <= 93
    decreases j - i
  {
    if i + 1 < j {
      FieldsAreDisjoint(i + 1, j);
    }
    StartBound(j);
  }

  lemma {:induction false} StartBound(j: nat)
    requires j <= FIELD_COUNT
    ensures StartOf(j) <= 93
    decreases FIELD_COUNT - j
  {
    if j == FIELD_COUNT {
      assert StartOf(2) == 12 && StartOf(4) == 18 && StartOf(6) == 28 && StartOf(8) == 37;
      assert StartOf(10) == 61 && StartOf(12) == 77 && StartOf(14) == 93;
    } else {
      StartBound(j + 1);
    }
  }

  // Where each field starts in the register file.
  function RegisterStart(f: HwField): nat {
    match f
    case Immediate => 0 case LocalSeq => 8 case RemoteSeq => 12 case TcpWindow => 16
    case TcpChckSum => 18 case Price => 20 case Size => 28 case Side => 36 case Time => 37
    case AppSeq => 53 case AskPrice => 61 case AskSize => 69 case SecurityId => 77
    case AsciiCnt => 85
  }

  lemma StartsAt(f: HwField)
    ensures StartOf(f.Index()) == RegisterStart(f)
  {
    assert StartOf(0) == 0 && StartOf(1) == 8 && StartOf(2) == 12 && StartOf(3) == 16 && StartOf(4) == 18;
    assert StartOf(5) == 20 && StartOf(6) == 28 && StartOf(7) == 36 && StartOf(8) == 37 && StartOf(9) == 53;
    assert StartOf(10) == 61 && StartOf(11) == 69 && StartOf(12) == 77 && StartOf(13) == 85;
  }

  // ----- template fields and their bytes -----

  datatype Field = Field(size: nat, source: HwField, swap: bool, clear: bool)

  // One template byte: fixed, or register byte h; summed is false for the checksum field.
  datatype Cell = Fixed(clear: bool) | Hw(h: Byte, summed: bool, clear: bool)

  function HwByte(f: Field, b: nat): Byte
    requires b < f.size
  {
    var start := StartOf(f.source.Index());
    (if f.swap then start + b else start + f.size - b - 1) % 0x100
  }

  function CellOf(f: Field, b: nat): Cell
    requires b < f.size
  {
    if f.source.Immediate? then Fixed(f.clear)
    else Hw(HwByte(f, b), !f.source.TcpChckSum?, f.clear)
  }

  function FieldCells(f: Field): (cells: seq<Cell>)
    ensures |cells| == f.size
  {
    seq(f.size, b requires 0 <= b < f.size => CellOf(f, b))
  }

  function Layout(fs: seq<Field>): seq<Cell> {
    if fs == [] then [] else FieldCells(fs[0]) + Layout(fs[1..])
  }

  function Offset(fs: seq<Field>, i: nat): nat
    requires i <= |fs|
  {
    |Layout(fs[..i])|
  }

  lemma {:induction false} LayoutAppend(fs: seq<Field>, gs: seq<Field>)
    ensures Layout(fs + gs) == Layout(fs) + Layout(gs)
    decreases |fs|
  {
    if fs == [] {
      assert fs + gs == gs;
    } else {
      assert (fs + gs)[1..] == fs[1..] + gs;
      LayoutAppend(fs[1..], gs);
    }
  }

  // Field i occupies the template bytes from its offset on.
  lemma LayoutAt(fs: seq<Field>, i: nat)
    requires i < |fs|
    ensures Offset(fs, i + 1) == Offset(fs, i) + fs[i].size <= |Layout(fs)|
    ensures forall b :: 0 <= b < fs[i].size ==> Layout(fs)[Offset(fs, i) + b] == CellOf(fs[i], b)
  {
    LayoutAppend(fs[..i], [fs[i]]);
    LayoutAppend(fs[..i + 1], fs[i + 1..]);
    assert fs[..i] + [fs[i]] == fs[..i + 1];
    assert fs[..i + 1] + fs[i + 1..] == fs;
    assert [fs[i]][1..] == [];
    assert Layout([fs[i]]) == FieldCells(fs[i]);
  }

  // Which field a template byte belongs to.
  lemma {:induction false} Locate(fs: seq<Field>, k: nat) returns (i: nat, b: nat)
    requires k < |Layout(fs)|
    ensures i < |fs| && b < fs[i].size && k == Offset(fs, i) + b && Layout(fs)[k] == CellOf(fs[i], b)
    decreases |fs|
  {
    if k < fs[0].size {
      i, b := 0, k;
      assert fs[..0] == [];
    } else {
      i, b := Locate(fs[1..], k - fs[0].size);
      i := i + 1;
      assert fs[..i][1..] == fs[1..][..i - 1];
    }
  }

  // ----- coverage -----

  // Some template byte of this parity takes its value from register byte h.
  predicate Covered(cells: seq<Cell>, odd: bool, h: Byte) {
    exists k :: 0 <= k < |cells| && Takes(cells, k, odd, h)
  }

  predicate Takes(cells: seq<Cell>, k: nat, odd: bool, h: Byte)
    requires k < |cells|
  {
    k % 2 == (if odd then 1 else 0) && cells[k].Hw? && cells[k].summed && cells[k].h == h
  }

  lemma CoveredNext(cells: seq<Cell>, c: Cell, odd: bool, h: Byte)
    ensures Covered(cells + [c], odd, h) <==>
            Covered(cells, odd, h) || Takes(cells + [c], |cells|, odd, h)
  {
    var more := cells + [c];
    if Covered(cells, odd, h) {
      var k :| 0 <= k < |cells| && Takes(cells, k, odd, h);
      assert Takes(more, k, odd, h);
    }
    if Covered(more, odd, h) {
      var k :| 0 <= k < |more| && Takes(more, k, odd, h);
      if k < |cells| {
        assert Takes(cells, k, odd, h);
      }
    }
  }

  // ----- EpmTemplate -----

  // The byte map entry of template byte idx.
  function MapByte(c: Cell, idx: nat): Byte {
    if c.Hw? then c.h else idx % 8
  }

  // The entry of byte b of field i: an immediate byte names its place among eight, a register
  // byte its place in the register file, the last byte first unless the field is swapped.
  ghost predicate EntryOf(entries: seq<Byte>, fs: seq<Field>, i: nat, b: nat)
    requires i < |fs| && b < fs[i].size
  {
    var at, f := Offset(fs, i) + b, fs[i];
    at < |entries| &&
    entries[at] == if f.source.Immediate? then at % 8
               else (RegisterStart(f.source) + if f.swap then b else f.size - 1 - b) % 0x100
  }

  // The map holds an entry for every byte of every field.
  ghost predicate MapOf(entries: seq<Byte>, fs: seq<Field>) {
    forall i, b :: 0 <= i < |fs| && 0 <= b < fs[i].size ==> EntryOf(entries, fs, i, b)
  }

  // Byte b of field i has become zero if the field is to be cleared, and is as before if not.
  ghost predicate ClearedAs(was: seq<Byte>, now: seq<Byte>, at: nat, fs: seq<Field>, i: nat, b: nat)
    requires i < |fs| && b < fs[i].size
  {
    var k := at + Offset(fs, i) + b;
    k < |was| && k < |now| && now[k] == if fs[i].clear then 0 else was[k]
  }

  // The cells below n that are to be cleared have been.
  predicate ClearedUpTo(was: seq<Byte>, now: seq<Byte>, at: nat, cells: seq<Cell>, n: nat)
    requires n <= |cells|
  {
    && |now| == |was|
    && forall k :: 0 <= k < |was| ==> now[k] == if at <= k < at + n && cells[k - at].clear then 0 else was[k]
  }

  lemma ClearedNext(was: seq<Byte>, now: seq<Byte>, at: nat, cells: seq<Cell>, n: nat)
    requires n < |cells| && at + n < |was| && ClearedUpTo(was, now, at, cells, n)
    ensures ClearedUpTo(was, if cells[n].clear then now[at + n := 0] else now, at, cells, n + 1)
  {
  }

  // Byte b of field i lies at a packet byte of this parity, goes into the checksum and comes
  // from register byte h.
  ghost predicate Picks(fs: seq<Field>, i: nat, b: nat, odd: bool, h: Byte)
    requires i < |fs| && b < fs[i].size
  {
    var f := fs[i];
    && !f.source.Immediate? && !f.source.TcpChckSum?
    && (Offset(fs, i) + b) % 2 == (if odd then 1 else 0)
    && h == (RegisterStart(f.source) + if f.swap then b else f.size - 1 - b) % 0x100
  }

  // A bitmap holds exactly the register bytes that some field picks.
  ghost predicate BitOf(fs: seq<Field>, odd: bool, h: Byte) {
    exists i, b :: 0 <= i < |fs| && 0 <= b < fs[i].size && Picks(fs, i, b, odd, h)
  }

  lemma PicksCovers(fs: seq<Field>, i: nat, b: nat, odd: bool, h: Byte)
    requires i < |fs| && b < fs[i].size && Picks(fs, i, b, odd, h)
    ensures Covered(Layout(fs), odd, h)
  {
    LayoutAt(fs, i);
    StartsAt(fs[i].source);
    assert Layout(fs)[Offset(fs, i) + b] == CellOf(fs[i], b);
    assert Takes(Layout(fs), Offset(fs, i) + b, odd, h);
  }

  lemma CoveredIsPicked(fs: seq<Field>, odd: bool, h: Byte)
    ensures Covered(Layout(fs), odd, h) <==> BitOf(fs, odd, h)
  {
    if Covered(Layout(fs), odd, h) {
      var k :| 0 <= k < |Layout(fs)| && Takes(Layout(fs), k, odd, h);
      var i, b := Locate(fs, k);
      StartsAt(fs[i].source);
      assert Picks(fs, i, b, odd, h);
    }
    if i, b :| 0 <= i < |fs| && 0 <= b < fs[i].size && Picks(fs, i, b, odd, h) {
      PicksCovers(fs, i, b, odd, h);
    }
  }

  lemma EntryByte(f: Field, b: nat, at: nat)
    requires b < f.size
    ensures MapByte(CellOf(f, b), at)
            == if f.source.Immediate? then at % 8
               else (RegisterStart(f.source) + if f.swap then b else f.size - 1 - b) % 0x100
  {
    StartsAt(f.source);
  }

  lemma MapEntry(entries: seq<Byte>, fs: seq<Field>, i: nat, b: nat, at: nat)
    requires i < |fs| && b < fs[i].size && at == Offset(fs, i) + b < |entries|
    requires entries[at] == MapByte(CellOf(fs[i], b), at)
    ensures EntryOf(entries, fs, i, b)
  {
    EntryByte(fs[i], b, at);
  }

  lemma MapEntries(entries: seq<Byte>, fs: seq<Field>)
    requires |Layout(fs)| <= |entries| && forall k :: 0 <= k < |Layout(fs)| ==> entries[k] == MapByte(Layout(fs)[k], k)
    ensures MapOf(entries, fs)
  {
    forall i, b | 0 <= i < |fs| && 0 <= b < fs[i].size ensures EntryOf(entries, fs, i, b) {
      LayoutAt(fs, i);
      MapEntry(entries, fs, i, b, Offset(fs, i) + b);
    }
  }

  class EpmTemplate {
    const templateStruct: seq<Field>
    const data: array<Byte>
    const low: array2<bool>    // 16 rows of 16 bits: register bytes at even packet bytes
    const high: array2<bool>   // the same for odd packet bytes
    var byteSize: nat

    constructor (fs: seq<Field>)
      ensures templateStruct == fs && byteSize == 0
      ensures fresh(data) && fresh(low) && fresh(high) && low != high
      ensures Shape()
      ensures forall h: Byte :: !low[h / 16, h % 16] && !high[h / 16, h % 16]
    {
      templateStruct := fs;
      data := new Byte[MAX_ETH_FRAME_SIZE](_ => 0);
      low := new bool[16, 16]((_, _) => false);
      high := new bool[16, 16]((_, _) => false);
      byteSize := 0;
    }

    predicate Shape() {
      && data.Length == MAX_ETH_FRAME_SIZE && low != high
      && low.Length0 == 16 && low.Length1 == 16 && high.Length0 == 16 && high.Length1 == 16
    }

    method SetCsBitmap(idx: nat, hwIdx: Byte)
      requires Shape()
      modifies low, high
      ensures forall h: Byte :: low[h / 16, h % 16] == (old(low[h / 16, h % 16]) || (idx % 2 == 0 && h == hwIdx))
      ensures forall h: Byte :: high[h / 16, h % 16] == (old(high[h / 16, h % 16]) || (idx % 2 == 1 && h == hwIdx))
    {
      var row, col := hwIdx / 16, hwIdx % 16;
      if idx % 2 == 0 {
        low[row, col] := true;
      } else {
        high[row, col] := true;
      }
    }

    // The bitmaps after the first template bytes cells.
    predicate BitmapsOf(cells: seq<Cell>)
      requires Shape()
      reads low, high
    {
      forall h: Byte ::
        low[h / 16, h % 16] == Covered(cells, false, h) && high[h / 16, h % 16] == Covered(cells, true, h)
    }

    // One byte of init's inner loop: byte b of field f lands on template byte idx.
    method InitByte(f: Field, b: nat, idx: nat, ghost cells: seq<Cell>)
      requires Shape() && b < f.size && idx < |cells| <= MAX_ETH_FRAME_SIZE && BitmapsOf(cells[..idx])
      requires cells[idx] == CellOf(f, b)
      requires forall k :: 0 <= k < idx ==> data[k] == MapByte(cells[k], k)
      modifies data, low, high
      ensures BitmapsOf(cells[..idx + 1])
      ensures forall k :: 0 <= k <= idx ==> data[k] == MapByte(cells[k], k)
    {
      ghost var c, before := CellOf(f, b), cells[..idx];
      if f.source.Immediate? {
        data[idx] := idx % 8;
      } else {
        var start := StartOf(f.source.Index());
        var hwFieldByteIdx: Byte := (if f.swap then start + b else start + f.size - b - 1) % 0x100;
        data[idx] := hwFieldByteIdx;
        if !f.source.TcpChckSum? {
          SetCsBitmap(idx, hwFieldByteIdx);
        }
      }
      forall h: Byte, odd | true
        ensures Covered(before + [c], odd, h) <==>
                Covered(before, odd, h) || (c.Hw? && c.summed && c.h == h && (idx % 2 == 1 <==> odd))
      {
        CoveredNext(before, c, odd, h);
      }
      assert cells[..idx + 1] == before + [c];
    }

    // init: byte map, bitmaps and size.
    method Init()
      requires Shape() && |Layout(templateStruct)| <= MAX_ETH_FRAME_SIZE && BitmapsOf([])
      modifies this, data, low, high
      ensures byteSize == |Layout(templateStruct)|
      ensures forall k :: 0 <= k < byteSize ==> data[k] == MapByte(Layout(templateStruct)[k], k)
      ensures MapOf(data[..], templateStruct)
      ensures BitmapsOf(Layout(templateStruct))
      ensures forall h: Byte :: low[h / 16, h % 16] == BitOf(templateStruct, false, h)
      ensures forall h: Byte :: high[h / 16, h % 16] == BitOf(templateStruct, true, h)
    {
      FillArrays();
      MapEntries(data[..], templateStruct);
      forall h: Byte | true
        ensures low[h / 16, h % 16] == BitOf(templateStruct, false, h)
        ensures high[h / 16, h % 16] == BitOf(templateStruct, true, h)
      {
        CoveredIsPicked(templateStruct, false, h);
        CoveredIsPicked(templateStruct, true, h);
      }
    }

    method FillArrays()
      requires Shape() && |Layout(templateStruct)| <= MAX_ETH_FRAME_SIZE && BitmapsOf([])
      modifies this, data, low, high
      ensures byteSize == |Layout(templateStruct)|
      ensures forall k :: 0 <= k < byteSize ==> data[k] == MapByte(Layout(templateStruct)[k], k)
      ensures BitmapsOf(Layout(templateStruct))
    {
      var idx: nat := 0;
      byteSize := 0;
      ghost var cells := Layout(templateStruct);
      assert templateStruct[..0] == [];
      assert cells[..0] == [];
      for i := 0 to |templateStruct|
        invariant idx == byteSize == Offset(templateStruct, i) <= |cells|
        invariant forall k :: 0 <= k < idx ==> data[k] == MapByte(cells[k], k)
        invariant BitmapsOf(cells[..idx])
      {
        var f := templateStruct[i];
        LayoutAt(templateStruct, i);
        for b := 0 to f.size
          invariant idx == byteSize + b && byteSize == Offset(templateStruct, i)
          invariant forall k :: 0 <= k < idx ==> data[k] == MapByte(cells[k], k)
          invariant BitmapsOf(cells[..idx])
        {
          InitByte(f, b, idx, cells);
          idx := idx + 1;
        }
        byteSize := byteSize + f.size;
      }
      assert templateStruct[..|templateStruct|] == templateStruct;
      assert cells[..|cells|] == cells;
    }

    // clearHwFields: zero the bytes of every field marked for clearing.
    method ClearHwFields(pkt: array<Byte>, at: nat)
      requires at + |Layout(templateStruct)| <= pkt.Length
      modifies pkt
      ensures forall k :: 0 <= k < pkt.Length ==>
                pkt[k] == if at <= k < at + |Layout(templateStruct)| && Layout(templateStruct)[k - at].clear
                          then 0 else old(pkt[k])
      ensures forall i, b :: 0 <= i < |templateStruct| && 0 <= b < templateStruct[i].size ==>
                ClearedAs(old(pkt[..]), pkt[..], at, templateStruct, i, b)
    {
      ClearFields(pkt, at);
      assert forall k :: 0 <= k < pkt.Length ==> pkt[k] == pkt[..][k] && old(pkt[k]) == old(pkt[..])[k];
      forall i, b | 0 <= i < |templateStruct| && 0 <= b < templateStruct[i].size
        ensures ClearedAs(old(pkt[..]), pkt[..], at, templateStruct, i, b)
      {
        LayoutAt(templateStruct, i);
        assert Layout(templateStruct)[Offset(templateStruct, i) + b] == CellOf(templateStruct[i], b);
      }
    }

    method ClearFields(pkt: array<Byte>, at: nat)
      requires at + |Layout(templateStruct)| <= pkt.Length
      modifies pkt
      ensures ClearedUpTo(old(pkt[..]), pkt[..], at, Layout(templateStruct), |Layout(templateStruct)|)
    {
      var idx: nat := 0;
      ghost var was, cells := pkt[..], Layout(templateStruct);
      assert templateStruct[..0] == [];
      for i := 0 to |templateStruct|
        invariant idx == Offset(templateStruct, i) <= |cells|
        invariant ClearedUpTo(was, pkt[..], at, cells, idx)
      {
        var f := templateStruct[i];
        LayoutAt(templateStruct, i);
        for b := 0 to f.size
          invariant idx == Offset(templateStruct, i) + b
          invariant ClearedUpTo(was, pkt[..], at, cells, idx)
        {
          assert cells[idx] == CellOf(f, b);
          ghost var now := pkt[..];
          if f.clear {
            pkt[at + idx] := 0;
          }
          assert pkt[..] == if f.clear then now[at + idx := 0] else now;
          ClearedNext(was, now, at, cells, idx);
          idx := idx + 1;
        }
      }
      assert templateStruct[..|templateStruct|] == templateStruct;
    }
  }
}
