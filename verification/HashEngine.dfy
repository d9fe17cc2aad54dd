// The security hash engine as objects: lines that are filled and packed in place.
module HashEngine {
  import opened HashTable

  datatype HashCol = HashCol(valid: bool, secId: nat, hash: nat)

  function SecIds(cols: seq<HashCol>): (row: seq<nat>)
    ensures |row| == |cols| && forall i :: 0 <= i < |row| ==> row[i] == cols[i].secId
  {
    seq(|cols|, i requires 0 <= i < |cols| => cols[i].secId)
  }

  class EkaHashEngLine {
    const p: Params
    const col: array<HashCol>
    const packedCol: array<nat>
    var packedAttr: nat
    var validCnt: nat
    var sum: nat

    predicate Shape() { IsTable(p) && col.Length == p.cols && packedCol.Length == p.cols }

    predicate Valid()
      reads this`validCnt, col
    {
      && Shape() && validCnt <= p.cols
      && (forall i :: 0 <= i < validCnt ==> col[i].hash == HashOf(p, col[i].secId))
      && (forall i :: validCnt <= i < p.cols ==> col[i].hash == 0)
    }

    function Ids(): (row: seq<nat>)
      requires Valid()
      reads this`validCnt, col
      ensures |row| == validCnt && forall i :: 0 <= i < validCnt ==> row[i] == col[i].secId
    {
      SecIds(col[..validCnt])
    }

    constructor (p: Params)
      requires IsTable(p)
      ensures this.p == p && Valid() && Ids() == [] && fresh(col) && fresh(packedCol)
    {
      this.p := p;
      packedAttr, validCnt, sum := 0, 0, 0;
      col := new HashCol[p.cols](_ => HashCol(false, 0, 0));
      packedCol := new nat[p.cols](_ => 0);
    }

    method AddSecurity(secId: nat) returns (res: AddResult)
      requires Valid()
      modifies this`validCnt, col
      ensures Valid()
      ensures res == AddTo(p, old(Ids()), secId)
      ensures Ids() == if res.Added? then old(Ids()) + [secId] else old(Ids())
    {
      if validCnt == p.cols {
        return RowFull;
      }
      var hash := HashOf(p, secId);
      ghost var hashes := Hashes(p, Ids());
      for i := 0 to validCnt
        invariant hash !in hashes[..i]
      {
        if col[i].hash == hash {
          FirstIsFound(hashes, hash, i);
          return if col[i].secId != secId then HashError else AlreadyThere;
        }
        assert hashes[..i + 1] == hashes[..i] + [hashes[i]];
      }
      assert hashes[..validCnt] == hashes;
      col[validCnt] := HashCol(true, secId, hash);
      validCnt := validCnt + 1;
      return Added;
    }

    method GetSubscriptionId(secId: nat) returns (id: int)
      requires Valid()
      ensures var k := Find(Ids(), secId); id == if k < 0 then -1 else sum + k
    {
      ghost var ids := Ids();
      for i := 0 to validCnt
        invariant secId !in ids[..i]
      {
        if col[i].secId == secId {
          FirstIsFound(ids, secId, i);
          return sum + i;
        }
        assert ids[..i + 1] == ids[..i] + [ids[i]];
      }
      assert ids[..validCnt] == ids;
      return -1;
    }

    function Packed(): PackedLine
      reads this`packedAttr, packedCol
    {
      PackedLine(packedAttr, packedCol[..])
    }

    method PackLine(sum: nat) returns (n: nat)
      requires Valid()
      modifies this`sum, this`packedAttr, packedCol
      ensures Valid() && Ids() == old(Ids()) && this.sum == sum && n == validCnt
      ensures Packed() == Pack(p, Ids(), sum)
    {
      this.sum := sum;
      packedAttr := Bits.Or(sum, validCnt * SUM_SPACE);
      for i := 0 to p.cols
        invariant this.sum == sum && packedAttr == Bits.Or(sum, validCnt * SUM_SPACE)
        invariant forall j :: 0 <= j < i ==> packedCol[j] == col[j].hash
      {
        packedCol[i] := col[i].hash;
      }
      assert packedCol[..] == Hashes(p, Ids()) + seq(p.cols - validCnt, _ => 0);
      return validCnt;
    }
  }

  lemma FirstIsFound(xs: seq<nat>, x: nat, i: nat)
    requires i < |xs| && xs[i] == x && x !in xs[..i]
    ensures Find(xs, x) == i
  {
    var k := Find(xs, x);
    assert x in xs;
    assert forall j :: 0 <= j < i ==> xs[j] == xs[..i][j] != x;
    assert forall j :: 0 <= j < k ==> xs[..k][j] == xs[j] != x;
  }

  class EkaHashEng {
    const p: Params
    const hashLine: seq<EkaHashEngLine>
    var numSecurities: nat

    predicate Apart() {
      && IsTable(p) && |hashLine| == p.rows
      && (forall r :: 0 <= r < p.rows ==> hashLine[r].p == p)
      && (forall r, s :: 0 <= r < s < p.rows ==>
            hashLine[r] != hashLine[s] && hashLine[r].col != hashLine[s].col
            && hashLine[r].packedCol != hashLine[s].packedCol)
    }

    function Objects(): set<EkaHashEngLine> {
      set r | 0 <= r < |hashLine| :: hashLine[r]
    }

    function Columns(): set<array<HashCol>> {
      set r | 0 <= r < |hashLine| :: hashLine[r].col
    }

    function PackedColumns(): set<array<nat>> {
      set r | 0 <= r < |hashLine| :: hashLine[r].packedCol
    }

    predicate LinesValid()
      reads Objects()`validCnt, Columns()
    {
      forall r :: 0 <= r < |hashLine| ==> hashLine[r].Valid()
    }

    function Rows(): (t: Table)
      requires LinesValid()
      reads Objects()`validCnt, Columns()
      ensures |t| == |hashLine| && forall r :: 0 <= r < |hashLine| ==> t[r] == hashLine[r].Ids()
    {
      FirstRows(|hashLine|)
    }

    function FirstRows(n: nat): (t: Table)
      requires n <= |hashLine| && LinesValid()
      reads Objects()`validCnt, Columns()
      ensures |t| == n && forall r :: 0 <= r < n ==> t[r] == hashLine[r].Ids()
    {
      if n == 0 then [] else FirstRows(n - 1) + [hashLine[n - 1].Ids()]
    }

    predicate Valid()
      reads this, Objects()`validCnt, Columns()
    {
      Apart() && LinesValid() && TableOk(p, Rows()) && numSecurities == Base(Rows(), p.rows)
    }

    constructor (p: Params)
      requires IsTable(p)
      ensures this.p == p && Valid() && Rows() == Empty(p)
    {
      this.p := p;
      numSecurities := 0;
      var lines: seq<EkaHashEngLine> := [];
      for i := 0 to p.rows
        invariant |lines| == i
        invariant forall r :: 0 <= r < i ==> fresh(lines[r]) && fresh(lines[r].col) && fresh(lines[r].packedCol)
        invariant forall r :: 0 <= r < i ==> lines[r].p == p && lines[r].Valid() && lines[r].Ids() == []
        invariant forall r, s :: 0 <= r < s < i ==>
                    lines[r] != lines[s] && lines[r].col != lines[s].col && lines[r].packedCol != lines[s].packedCol
      {
        var line := new EkaHashEngLine(p);
        lines := lines + [line];
      }
      hashLine := lines;
      new;
      assert Rows() == Empty(p);
      EmptyIsOk(p);
    }

    method AddToLine(lineIdx: nat, secId: nat) returns (res: AddResult)
      requires Apart() && LinesValid() && lineIdx == RowOf(p, secId)
      modifies Objects()`validCnt, Columns()
      ensures LinesValid()
      ensures var was := old(Rows());
        && res == AddTo(p, was[lineIdx], secId)
        && Rows() == if res.Added? then was[lineIdx := was[lineIdx] + [secId]] else was
    {
      ghost var was := Rows();
      res := hashLine[lineIdx].AddSecurity(secId);
      forall r | 0 <= r < p.rows && r != lineIdx ensures hashLine[r].Valid() && hashLine[r].Ids() == was[r] {
        assert hashLine[r] != hashLine[lineIdx] && hashLine[r].col != hashLine[lineIdx].col;
      }
      assert Rows() == if res.Added? then was[lineIdx := was[lineIdx] + [secId]] else was;
    }

    method CountOne()
      requires LinesValid()
      modifies this`numSecurities
      ensures LinesValid() && Rows() == old(Rows()) && numSecurities == old(numSecurities) + 1
    {
      numSecurities := numSecurities + 1;
    }

    // aborted is on_error.
    method SubscribeSec(secId: nat) returns (aborted: bool, ret: bool)
      requires Valid()
      modifies this`numSecurities, Objects()`validCnt, Columns()
      ensures aborted == Subscribe(p, old(Rows()), old(numSecurities), secId).Abort?
      ensures !aborted ==> Valid()
      ensures !aborted ==> Subscribed(Rows(), numSecurities, ret) == Subscribe(p, old(Rows()), old(numSecurities), secId)
    {
      if numSecurities == p.rows * p.cols {
        return false, false;
      }
      ghost var was := Rows();
      var res := AddToLine(RowOf(p, secId), secId);
      SubscribeInParts(p, was, secId, res);
      if res.HashError? {
        return true, false;
      }
      if res.Added? {
        CountOne();
      }
      return false, true;
    }

    function PackedLines(n: nat): (lines: seq<PackedLine>)
      requires n <= |hashLine|
      reads Objects()`packedAttr, PackedColumns()
      ensures |lines| == n && forall r :: 0 <= r < n ==> lines[r] == hashLine[r].Packed()
    {
      if n == 0 then [] else PackedLines(n - 1) + [hashLine[n - 1].Packed()]
    }

    predicate SumAt(t: Table, r: nat)
      requires r < |hashLine| && r <= |t|
      reads Objects()`sum
    {
      hashLine[r].sum == Base(t, r)
    }

    predicate PackedAt(t: Table, r: nat)
      requires IsTable(p) && r < |hashLine| && r < |t| && |t[r]| <= p.cols
      reads Objects()`packedAttr, PackedColumns()
    {
      hashLine[r].Packed() == Pack(p, t[r], Base(t, r))
    }

    predicate SumsSet(t: Table)
      requires |t| == |hashLine|
      reads Objects()`sum
    {
      forall r :: 0 <= r < |hashLine| ==> SumAt(t, r)
    }

    predicate PackedUpTo(t: Table, n: nat)
      requires Apart() && RowsFit(p, t) && n <= p.rows
      reads Objects()`sum, Objects()`packedAttr, PackedColumns()
    {
      forall r :: 0 <= r < n ==> SumAt(t, r) && PackedAt(t, r)
    }

    method PackRow(ghost t: Table, i: nat, sum: nat) returns (n: nat)
      requires Apart() && LinesValid() && RowsFit(p, t) && Rows() == t
      requires i < p.rows && sum == Base(t, i) && PackedUpTo(t, i)
      modifies Objects()`sum, Objects()`packedAttr, PackedColumns()
      ensures LinesValid() && Rows() == t
      ensures n == |t[i]| && PackedUpTo(t, i + 1)
    {
      n := hashLine[i].PackLine(sum);
      forall r | 0 <= r < i ensures SumAt(t, r) && PackedAt(t, r) {
        assert hashLine[r] != hashLine[i] && hashLine[r].packedCol != hashLine[i].packedCol;
        assert old(SumAt(t, r) && PackedAt(t, r));
      }
      forall r | 0 <= r < p.rows ensures hashLine[r].Valid() && hashLine[r].Ids() == t[r] {
        assert old(hashLine[r].Valid() && hashLine[r].Ids() == t[r]);
      }
    }

    lemma AllPacked(t: Table)
      requires Apart() && RowsFit(p, t) && PackedUpTo(t, p.rows)
      ensures SumsSet(t) && PackedLines(|hashLine|) == PackAll(p, t)
    {
      var lines := PackedLines(|hashLine|);
      forall r | 0 <= r < p.rows ensures lines[r] == Pack(p, t[r], Base(t, r)) {
        assert PackedAt(t, r);
      }
      assert lines == PackAll(p, t);
    }

    lemma LinesFit()
      requires Apart() && LinesValid()
      ensures RowsFit(p, Rows())
    {
      assert forall r :: 0 <= r < p.rows ==> |Rows()[r]| == |hashLine[r].Ids()|;
    }

    method PackDB()
      requires Apart() && LinesValid()
      modifies Objects()`sum, Objects()`packedAttr, PackedColumns()
      ensures LinesValid() && Rows() == old(Rows()) && SumsSet(Rows())
      ensures RowsFit(p, Rows()) && PackedLines(|hashLine|) == PackAll(p, Rows())
    {
      ghost var t := Rows();
      LinesFit();
      var sum, i := 0, 0;
      while i < p.rows
        invariant 0 <= i <= p.rows && sum == Base(t, i)
        invariant LinesValid() && Rows() == t
        invariant PackedUpTo(t, i)
      {
        var n := PackRow(t, i, sum);
        sum, i := sum + n, i + 1;
      }
      AllPacked(t);
    }

    // The line's sum as packDB last left it, plus the column: once packed, the subscription
    // id of the table.
    method GetSubscriptionId(secId: nat) returns (id: int)
      requires Apart() && LinesValid()
      ensures var r, k := RowOf(p, secId), Find(Rows()[RowOf(p, secId)], secId);
              id == if k < 0 then -1 else hashLine[r].sum + k
      ensures SumsSet(Rows()) ==> id == SubscriptionId(p, Rows(), secId)
    {
      var lineIdx := RowOf(p, secId);
      ghost var t := Rows();
      assert t[lineIdx] == hashLine[lineIdx].Ids();
      id := hashLine[lineIdx].GetSubscriptionId(secId);
      assert Rows() == t;
      if SumsSet(t) {
        assert SumAt(t, lineIdx);
      }
    }
  }
}
