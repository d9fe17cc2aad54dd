// The security table as a value: rows of subscribed ids, and the lines packed from them for
// the lookup in hardware.
module HashTable {
  import opened Arith
  import opened Bits

  const WORD16 := 0x1_0000
  const SUM_SPACE := 0x100_0000   // the sum takes the low 24 bits of a line's attribute

  datatype FeedKind = Miax | OtherFeed

  // cols is below 256 and all columns together below 2^24 wherever packing is concerned.
  datatype Params = Params(kind: FeedKind, rows: nat, cols: nat)

  predicate IsTable(p: Params) { IsPow2(p.rows) }

  // A line's attribute has 24 bits for the sum and 8 for the count.
  predicate IsPackable(p: Params) { IsTable(p) && p.cols < 0x100 && p.rows * p.cols < SUM_SPACE }

  function RowOf(p: Params, q: nat): (r: nat)
    requires IsTable(p)
    ensures r < p.rows && r == q % p.rows
  {
    AndMask(q, p.rows);
    And(q, p.rows - 1)
  }

  function HashOf(p: Params, q: nat): (h: nat)
    requires IsTable(p)
    ensures h < WORD16
  {
    match p.kind
    case Miax => q / SUM_SPACE % 0x100
    case OtherFeed => q / p.rows % WORD16
  }

  // Subscribed ids row by row, each row in order of subscription.
  type Table = seq<seq<nat>>

  datatype AddResult = Added | RowFull | AlreadyThere | HashError

  // addSecurity: HashError is on_error.
  function AddTo(p: Params, row: seq<nat>, q: nat): AddResult
    requires IsTable(p)
  {
    if |row| == p.cols then RowFull
    else
      var k := Find(Hashes(p, row), HashOf(p, q));
      if k < 0 then Added else if row[k] != q then HashError else AlreadyThere
  }

  function Hashes(p: Params, row: seq<nat>): (h: seq<nat>)
    requires IsTable(p)
    ensures |h| == |row| && forall i :: 0 <= i < |h| ==> h[i] == HashOf(p, row[i])
  {
    seq(|row|, i requires 0 <= i < |row| => HashOf(p, row[i]))
  }

  // The first position of a value, or -1.
  function Find(xs: seq<nat>, x: nat): (k: int)
    ensures -1 <= k < |xs|
    ensures k >= 0 ==> xs[k] == x && x !in xs[..k]
    ensures k < 0 ==> x !in xs
  {
    if xs == [] then -1
    else if xs[0] == x then 0
    else
      var k := Find(xs[1..], x);
      assert k >= 0 ==> xs[..k + 1] == [xs[0]] + xs[1..][..k];
      if k < 0 then -1 else k + 1
  }

  // ----- subscribing -----

  datatype Outcome = Subscribed(t: Table, num: nat, ret: bool) | Abort

  // subscribeSec
  function Subscribe(p: Params, t: Table, num: nat, q: nat): Outcome
    requires IsTable(p) && |t| == p.rows
  {
    var r := RowOf(p, q);
    if num == p.rows * p.cols then Subscribed(t, num, false)
    else match AddTo(p, t[r], q)
      case Added => Subscribed(t[r := t[r] + [q]], num + 1, true)
      case HashError => Abort
      case _ => Subscribed(t, num, true)
  }

  function Empty(p: Params): (t: Table)
    ensures |t| == p.rows && forall r :: 0 <= r < p.rows ==> t[r] == []
  {
    seq(p.rows, _ => [])
  }

  // The table after a list of calls.
  function SubscribeAll(p: Params, qs: seq<nat>): (o: Outcome)
    requires IsTable(p)
    ensures o.Subscribed? ==> |o.t| == p.rows
    decreases |qs|
  {
    if qs == [] then Subscribed(Empty(p), 0, true)
    else
      var before := SubscribeAll(p, qs[..|qs| - 1]);
      if before.Abort? then Abort else Subscribe(p, before.t, before.num, qs[|qs| - 1])
  }

  predicate DistinctHashes(p: Params, row: seq<nat>)
    requires IsTable(p)
  {
    forall i, j :: 0 <= i < j < |row| ==> HashOf(p, row[i]) != HashOf(p, row[j])
  }

  predicate RowOk(p: Params, row: seq<nat>, r: nat)
    requires IsTable(p)
  {
    && |row| <= p.cols && DistinctHashes(p, row)
    && forall i :: 0 <= i < |row| ==> RowOf(p, row[i]) == r
  }

  predicate TableOk(p: Params, t: Table)
    requires IsTable(p)
  {
    |t| == p.rows && forall r :: 0 <= r < p.rows ==> RowOk(p, t[r], r)
  }

  predicate Stored(p: Params, t: Table, q: nat)
    requires IsTable(p) && |t| == p.rows
  {
    q in t[RowOf(p, q)]
  }

  // What the rows before r hold, and all rows.
  function Base(t: Table, r: nat): nat
    requires r <= |t|
  {
    if r == 0 then 0 else Base(t, r - 1) + |t[r - 1]|
  }

  lemma {:induction false} BaseGrows(t: Table, a: nat, b: nat)
    requires a <= b <= |t|
    ensures Base(t, a) <= Base(t, b)
    decreases b
  {
    if a < b {
      BaseGrows(t, a, b - 1);
    }
  }

  lemma {:induction false} BaseAfterAdd(t: Table, r: nat, q: nat, n: nat)
    requires r < |t| && n <= |t|
    ensures Base(t[r := t[r] + [q]], n) == Base(t, n) + if r < n then 1 else 0
  {
    if n > 0 {
      BaseAfterAdd(t, r, q, n - 1);
    }
  }

  lemma {:induction false} BaseBounded(p: Params, t: Table, n: nat)
    requires IsTable(p) && TableOk(p, t) && n <= p.rows
    ensures Base(t, n) <= n * p.cols
  {
    if n > 0 {
      BaseBounded(p, t, n - 1);
      assert n * p.cols == (n - 1) * p.cols + p.cols;
    }
  }

  lemma {:induction false} RoomSomewhere(p: Params, t: Table, r: nat, n: nat)
    requires IsTable(p) && TableOk(p, t) && r < n <= p.rows && |t[r]| < p.cols
    ensures Base(t, n) < n * p.cols
  {
    assert n * p.cols == (n - 1) * p.cols + p.cols;
    if r < n - 1 {
      RoomSomewhere(p, t, r, n - 1);
    } else {
      BaseBounded(p, t, n - 1);
    }
  }

  lemma AddKeepsRow(p: Params, row: seq<nat>, q: nat)
    requires IsTable(p) && RowOk(p, row, RowOf(p, q)) && AddTo(p, row, q).Added?
    ensures RowOk(p, row + [q], RowOf(p, q)) && q !in row
  {
    assert forall i :: 0 <= i < |row| ==> HashOf(p, row[i]) in Hashes(p, row) by {
      assert forall i :: 0 <= i < |row| ==> HashOf(p, row[i]) == Hashes(p, row)[i];
    }
  }

  // One call keeps the table well formed and its count right, and stores the id if and only
  // if its row has room or holds it already: the total limit never decides. It reports
  // success even where a full row drops the id.
  lemma SubscribeKeeps(p: Params, t: Table, q: nat, other: nat)
    requires IsTable(p) && TableOk(p, t) && Subscribe(p, t, Base(t, p.rows), q).Subscribed?
    ensures var o := Subscribe(p, t, Base(t, p.rows), q);
            && TableOk(p, o.t) && o.num == Base(o.t, p.rows)
            && (Stored(p, o.t, q) <==> |t[RowOf(p, q)]| < p.cols || Stored(p, t, q))
            && (other != q ==> (Stored(p, o.t, other) <==> Stored(p, t, other)))
            && (o.ret <==> Base(t, p.rows) < p.rows * p.cols)
  {
    var r := RowOf(p, q);
    BaseBounded(p, t, p.rows);
    if |t[r]| < p.cols {
      RoomSomewhere(p, t, r, p.rows);
    }
    if Base(t, p.rows) != p.rows * p.cols && AddTo(p, t[r], q).Added? {
      AddKeepsRow(p, t[r], q);
      BaseAfterAdd(t, r, q, p.rows);
    }
  }

  // The parts of a call as the object makes them.
  lemma SubscribeInParts(p: Params, t: Table, q: nat, res: AddResult)
    requires IsTable(p) && TableOk(p, t) && Base(t, p.rows) != p.rows * p.cols
    requires res == AddTo(p, t[RowOf(p, q)], q)
    ensures var o := Subscribe(p, t, Base(t, p.rows), q);
            && (o.Abort? <==> res.HashError?)
            && (o.Subscribed? ==>
                  && o.t == (if res.Added? then t[RowOf(p, q) := t[RowOf(p, q)] + [q]] else t) && o.ret
                  && TableOk(p, o.t) && o.num == Base(o.t, p.rows) == Base(t, p.rows) + if res.Added? then 1 else 0)
  {
    if !res.HashError? {
      SubscribeKeeps(p, t, q, q);
    }
  }

  lemma EmptyIsOk(p: Params)
    requires IsTable(p)
    ensures TableOk(p, Empty(p)) && Base(Empty(p), p.rows) == 0
  {
    BaseOfEmpty(p, p.rows);
  }

  lemma {:induction false} BaseOfEmpty(p: Params, n: nat)
    requires n <= p.rows
    ensures Base(Empty(p), n) == 0
  {
    if n > 0 {
      BaseOfEmpty(p, n - 1);
    }
  }

  lemma {:induction false} SubscribeAllOk(p: Params, qs: seq<nat>)
    requires IsTable(p) && SubscribeAll(p, qs).Subscribed?
    ensures var o := SubscribeAll(p, qs);
            && TableOk(p, o.t) && o.num == Base(o.t, p.rows)
            && forall q :: Stored(p, o.t, q) ==> q in qs
    decreases |qs|
  {
    if qs == [] {
      EmptyIsOk(p);
    } else {
      var front, last := qs[..|qs| - 1], qs[|qs| - 1];
      SubscribeAllOk(p, front);
      var b := SubscribeAll(p, front);
      SubscribeKeeps(p, b.t, last, 0);
      forall q | Stored(p, SubscribeAll(p, qs).t, q) ensures q in qs {
        SubscribeKeeps(p, b.t, last, q);
      }
    }
  }

  // ----- the table against a plain set -----

  function Members(row: seq<nat>): (m: set<nat>)
    ensures forall q :: q in m <==> q in row
  {
    set q | q in row
  }

  function InRow(p: Params, qs: seq<nat>, r: nat): set<nat>
    requires IsTable(p)
  {
    set q | q in qs && RowOf(p, q) == r
  }

  lemma SubsetSize(a: set<nat>, b: set<nat>)
    requires a <= b
    ensures |a| <= |b|
  {
    assert b == a + (b - a);
  }

  lemma {:induction false} RowSize(p: Params, row: seq<nat>)
    requires IsTable(p) && DistinctHashes(p, row)
    ensures |Members(row)| == |row|
    decreases |row|
  {
    if row != [] {
      var front, last := row[..|row| - 1], row[|row| - 1];
      RowSize(p, front);
      assert last !in front by {
        assert forall i :: 0 <= i < |front| ==> HashOf(p, front[i]) != HashOf(p, last);
      }
      assert row == front + [last];
      assert Members(row) == Members(front) + {last};
    } else {
      assert Members(row) == {};
    }
  }

  // A row holds nothing but ids subscribed, and all of its own as long as it has room left or
  // is not asked for more ids than it has columns.
  lemma {:induction false} RowHolds(p: Params, qs: seq<nat>, r: nat)
    requires IsTable(p) && r < p.rows && SubscribeAll(p, qs).Subscribed?
    ensures var row := SubscribeAll(p, qs).t[r];
            && Members(row) <= InRow(p, qs, r)
            && (|row| < p.cols || |InRow(p, qs, r)| <= p.cols ==> Members(row) == InRow(p, qs, r))
    decreases |qs|
  {
    SubscribeAllOk(p, qs);
    if qs != [] {
      var front, last := qs[..|qs| - 1], qs[|qs| - 1];
      RowHolds(p, front, r);
      assert qs == front + [last];
      assert InRow(p, qs, r) == InRow(p, front, r) + if RowOf(p, last) == r then {last} else {};
      RowStep(p, front, last, r);
    }
  }

  lemma RowStep(p: Params, front: seq<nat>, last: nat, r: nat)
    requires IsTable(p) && r < p.rows && SubscribeAll(p, front).Subscribed?
    requires var b := SubscribeAll(p, front); Subscribe(p, b.t, b.num, last).Subscribed?
    requires var row, ids := SubscribeAll(p, front).t[r], InRow(p, front, r);
             Members(row) <= ids && (|row| < p.cols || |ids| <= p.cols ==> Members(row) == ids)
    ensures var b := SubscribeAll(p, front);
            var row := Subscribe(p, b.t, b.num, last).t[r];
            var ids := InRow(p, front, r) + if RowOf(p, last) == r then {last} else {};
            Members(row) <= ids && (|row| < p.cols || |ids| <= p.cols ==> Members(row) == ids)
  {
    var b := SubscribeAll(p, front);
    var row, row' := b.t[r], Subscribe(p, b.t, b.num, last).t[r];
    var ids := InRow(p, front, r) + if RowOf(p, last) == r then {last} else {};
    SubscribeAllOk(p, front);
    RowSize(p, row);
    if |row| == p.cols {
      assert row' == row;
      if |ids| <= p.cols {
        SameSize(Members(row), ids);
      }
    } else if RowOf(p, last) == r {
      RoomSomewhere(p, b.t, r, p.rows);
      assert Members(row + [last]) == Members(row) + {last};
      assert AddTo(p, row, last).AlreadyThere? ==> last in row;
    }
  }

  lemma SameSize(a: set<nat>, b: set<nat>)
    requires a <= b && |b| <= |a|
    ensures a == b
  {
    assert b == a + (b - a);
  }

  // When no row is asked for more ids than it has columns, the table is exactly the set of
  // the ids subscribed.
  lemma TableIsSet(p: Params, qs: seq<nat>, q: nat)
    requires IsTable(p) && SubscribeAll(p, qs).Subscribed?
    requires forall r :: 0 <= r < p.rows ==> |InRow(p, qs, r)| <= p.cols
    ensures Stored(p, SubscribeAll(p, qs).t, q) <==> q in qs
  {
    var r := RowOf(p, q);
    RowHolds(p, qs, r);
    assert q in Members(SubscribeAll(p, qs).t[r]) <==> q in InRow(p, qs, r);
  }

  // ----- when the abort is reached -----

  predicate Clash(p: Params, a: nat, b: nat)
    requires IsTable(p)
  {
    a != b && RowOf(p, a) == RowOf(p, b) && HashOf(p, a) == HashOf(p, b)
  }

  // Call i finds room in its row and an id there that its own clashes with.
  predicate ClashAt(p: Params, qs: seq<nat>, i: nat)
    requires IsTable(p)
  {
    && i < |qs| && |InRow(p, qs[..i], RowOf(p, qs[i]))| < p.cols
    && exists j :: 0 <= j < i && Clash(p, qs[j], qs[i])
  }

  lemma ClashAtPrefix(p: Params, qs: seq<nat>, n: nat, i: nat)
    requires IsTable(p) && i < n <= |qs|
    ensures ClashAt(p, qs[..n], i) <==> ClashAt(p, qs, i)
  {
    assert qs[..n][..i] == qs[..i];
  }

  lemma StepAborts(p: Params, qs: seq<nat>)
    requires IsTable(p) && qs != [] && SubscribeAll(p, qs[..|qs| - 1]).Subscribed?
    ensures SubscribeAll(p, qs).Abort? <==> ClashAt(p, qs, |qs| - 1)
  {
    var front, q := qs[..|qs| - 1], qs[|qs| - 1];
    var b, r := SubscribeAll(p, front), RowOf(p, q);
    var row := b.t[r];
    SubscribeAllOk(p, front);
    RowHolds(p, front, r);
    RowSize(p, row);
    if |row| < p.cols {
      RoomSomewhere(p, b.t, r, p.rows);
      HashFound(p, row, q);
      forall s ensures s in row <==> s in front && RowOf(p, s) == r {
        assert s in Members(row) <==> s in InRow(p, front, r);
      }
    } else {
      SubsetSize(Members(row), InRow(p, front, r));
    }
  }

  // The search stops at an id of the same hash, and there is one if the row holds any.
  lemma HashFound(p: Params, row: seq<nat>, q: nat)
    requires IsTable(p) && DistinctHashes(p, row) && |row| != p.cols
    ensures AddTo(p, row, q).HashError? <==> exists s :: s in row && s != q && HashOf(p, s) == HashOf(p, q)
  {
    var k := Find(Hashes(p, row), HashOf(p, q));
    if i :| 0 <= i < |row| && HashOf(p, row[i]) == HashOf(p, q) {
      assert Hashes(p, row)[i] == HashOf(p, q);
      assert k == i;
    }
  }

  // Over every list of calls, whatever the hash, the program aborts if and only if some call
  // finds room and a clash.
  lemma {:induction false} AbortsExactly(p: Params, qs: seq<nat>)
    requires IsTable(p)
    ensures SubscribeAll(p, qs).Abort? <==> exists i: nat :: ClashAt(p, qs, i)
    decreases |qs|
  {
    if qs != [] {
      var n := |qs| - 1;
      AbortsExactly(p, qs[..n]);
      forall i: nat | i < n ensures ClashAt(p, qs[..n], i) <==> ClashAt(p, qs, i) {
        ClashAtPrefix(p, qs, n, i);
      }
      if SubscribeAll(p, qs[..n]).Subscribed? {
        StepAborts(p, qs);
      }
    }
  }

  predicate HasClash(p: Params, qs: seq<nat>)
    requires IsTable(p)
  {
    exists i, j :: 0 <= j < i < |qs| && Clash(p, qs[j], qs[i])
  }

  // So, while no row is asked for more ids than it has columns, if and only if two of the ids
  // clash, in whatever order they come.
  lemma AbortsOnClash(p: Params, qs: seq<nat>)
    requires IsTable(p)
    ensures SubscribeAll(p, qs).Abort? ==> HasClash(p, qs)
    ensures (forall r :: 0 <= r < p.rows ==> |InRow(p, qs, r)| <= p.cols) ==>
              (SubscribeAll(p, qs).Abort? <==> HasClash(p, qs))
  {
    AbortsExactly(p, qs);
    if HasClash(p, qs) && forall r :: 0 <= r < p.rows ==> |InRow(p, qs, r)| <= p.cols {
      var i, j :| 0 <= j < i < |qs| && Clash(p, qs[j], qs[i]);
      FirstOfClash(p, qs, i, j);
    }
  }

  // If one of the two was there before, the earlier calls clash already.
  lemma {:induction false} FirstOfClash(p: Params, qs: seq<nat>, i: nat, j: nat)
    requires IsTable(p) && j < i < |qs| && Clash(p, qs[j], qs[i])
    requires |InRow(p, qs, RowOf(p, qs[i]))| <= p.cols
    ensures exists k: nat :: ClashAt(p, qs, k)
    decreases i
  {
    var r := RowOf(p, qs[i]);
    if k :| 0 <= k < i && qs[k] == qs[i] {
      assert Clash(p, qs[j], qs[k]) && Clash(p, qs[k], qs[j]);
      if j < k {
        FirstOfClash(p, qs, k, j);
      } else {
        FirstOfClash(p, qs, j, k);
      }
    } else {
      assert InRow(p, qs[..i], r) + {qs[i]} <= InRow(p, qs, r) && qs[i] !in InRow(p, qs[..i], r);
      SubsetSize(InRow(p, qs[..i], r) + {qs[i]}, InRow(p, qs, r));
      assert ClashAt(p, qs, i);
    }
  }

  // ----- the plain hash loses nothing below rows * 2^16 -----

  predicate Small(p: Params, q: nat) { p.kind.OtherFeed? && q < p.rows * WORD16 }

  lemma HashAndRowDecide(p: Params, q: nat, s: nat)
    requires IsTable(p) && Small(p, q) && Small(p, s)
    requires RowOf(p, q) == RowOf(p, s) && HashOf(p, q) == HashOf(p, s)
    ensures q == s
  {
    HashIsQuotient(p, q);
    HashIsQuotient(p, s);
    SameParts(q, s, p.rows, HashOf(p, q), RowOf(p, q));
  }

  lemma HashIsQuotient(p: Params, q: nat)
    requires IsTable(p) && Small(p, q)
    ensures HashOf(p, q) == q / p.rows
  {
    SmallQuotient(q, p.rows, WORD16);
  }

  lemma SmallQuotient(x: nat, m: nat, n: nat)
    requires m > 0 && x < m * n
    ensures x / m < n && x / m % n == x / m
  {
    var k := x / m;
    assert x == k * m + x % m;
    if k >= n {
      MulMonotone(n, m, k, m);
      assert false;
    }
    ModUnique(k, n, 0, k);
  }

  lemma SameParts(x: nat, y: nat, m: nat, k: nat, r: nat)
    requires m > 0 && x / m == y / m == k && x % m == y % m == r
    ensures x == y
  {
    assert x == k * m + r && y == k * m + r;
  }

  // So with the plain hash the abort is never reached on such ids.
  lemma HashErrorUnreachable(p: Params, qs: seq<nat>)
    requires IsTable(p) && forall i :: 0 <= i < |qs| ==> Small(p, qs[i])
    ensures SubscribeAll(p, qs).Subscribed?
  {
    AbortsOnClash(p, qs);
    if i, j :| 0 <= j < i < |qs| && Clash(p, qs[j], qs[i]) {
      HashAndRowDecide(p, qs[j], qs[i]);
    }
  }

  lemma FarId(p: Params, q: nat)
    requires IsTable(p) && p.kind.OtherFeed?
    ensures var far := q + p.rows * WORD16;
            RowOf(p, far) == RowOf(p, q) && HashOf(p, far) == HashOf(p, q) && far != q
  {
    var k, r := q / p.rows, q % p.rows;
    var far := q + p.rows * WORD16;
    FarQuotient(q, p.rows, WORD16);
    ModUnique(k, WORD16, k / WORD16, k % WORD16);
    ModUnique(k + WORD16, WORD16, k / WORD16 + 1, k % WORD16);
    MulMonotone(1, 1, p.rows, WORD16);
  }

  lemma FarQuotient(x: nat, m: nat, n: nat)
    requires m > 0
    ensures (x + m * n) / m == x / m + n && (x + m * n) % m == x % m
  {
    var k, r := x / m, x % m;
    assert x == k * m + r;
    assert (k + n) * m == k * m + m * n;
    ModUnique(x + m * n, m, k + n, r);
  }

  // Two ids that clash reach it when there is room for both.
  lemma PairAborts(p: Params, a: nat, b: nat)
    requires IsTable(p) && p.cols > 1 && Clash(p, a, b)
    ensures SubscribeAll(p, [a, b]).Abort?
  {
    var qs := [a, b];
    AbortsExactly(p, qs);
    assert qs[..1] == [a];
    assert InRow(p, [a], RowOf(p, b)) == {a};
    assert Clash(p, qs[0], qs[1]);
    assert ClashAt(p, qs, 1);
  }

  // Two ids that differ by rows * 2^16 do with the plain hash.
  lemma FarIdsCollide(p: Params, q: nat)
    requires IsTable(p) && p.kind.OtherFeed? && p.cols > 1
    ensures SubscribeAll(p, [q, q + p.rows * WORD16]).Abort?
  {
    FarId(p, q);
    PairAborts(p, q, q + p.rows * WORD16);
  }

  // MIAX's hash is the fourth byte of the id.
  lemma MiaxHash(p: Params, high: nat, h: nat, low: nat)
    requires IsTable(p) && p.kind.Miax? && h < 0x100 && low < 0x100_0000
    ensures HashOf(p, 0x1_0000_0000 * high + 0x100_0000 * h + low) == h
  {
    var q := 0x1_0000_0000 * high + 0x100_0000 * h + low;
    ModUnique(q, 0x100_0000, 0x100 * high + h, low);
    ModUnique(0x100 * high + h, 0x100, high, h);
  }

  // With MIAX's hash, which takes eight bits and leaves those between row and hash out, the
  // ids 0 and rows do.
  lemma MiaxIdsCollide(p: Params)
    requires IsTable(p) && p.kind.Miax? && p.cols > 1 && p.rows < SUM_SPACE
    ensures SubscribeAll(p, [0, p.rows]).Abort?
  {
    ModUnique(p.rows, p.rows, 1, 0);
    PairAborts(p, 0, p.rows);
  }

  // ----- subscription ids -----

  // getSubscriptionId after packDB
  function SubscriptionId(p: Params, t: Table, q: nat): int
    requires IsTable(p) && |t| == p.rows
  {
    var k := Find(t[RowOf(p, q)], q);
    if k < 0 then -1 else Base(t, RowOf(p, q)) + k
  }

  // The row that holds the n-th id.
  function RowAt(t: Table, n: nat, r: nat): (k: nat)
    requires r <= |t| && n < Base(t, r)
    ensures k < r && Base(t, k) <= n < Base(t, k + 1)
  {
    if n < Base(t, r - 1) then RowAt(t, n, r - 1) else r - 1
  }

  function IdAt(t: Table, n: nat): nat
    requires n < Base(t, |t|)
  {
    var r := RowAt(t, n, |t|);
    t[r][n - Base(t, r)]
  }

  lemma DistinctIds(p: Params, row: seq<nat>, i: nat)
    requires IsTable(p) && DistinctHashes(p, row) && i < |row|
    ensures Find(row, row[i]) == i
  {
    assert row[i] in row;
    assert forall j :: 0 <= j < |row| && j != i ==> HashOf(p, row[j]) != HashOf(p, row[i]);
  }

  // Subscription ids number the stored securities: a stored one gets a number below the
  // count, every such number belongs to one, and no number to two.
  lemma IdsAreNumbered(p: Params, t: Table, q: nat, n: nat)
    requires IsTable(p) && TableOk(p, t)
    ensures Stored(p, t, q) <==> SubscriptionId(p, t, q) >= 0
    ensures Stored(p, t, q) ==>
      SubscriptionId(p, t, q) < Base(t, p.rows) && IdAt(t, SubscriptionId(p, t, q)) == q
    ensures n < Base(t, p.rows) ==> Stored(p, t, IdAt(t, n)) && SubscriptionId(p, t, IdAt(t, n)) == n
  {
    if Stored(p, t, q) {
      var r := RowOf(p, q);
      var id := SubscriptionId(p, t, q);
      assert id < Base(t, r + 1);
      BaseGrows(t, r + 1, p.rows);
      RowAtUnique(t, id, p.rows, r);
    }
    if n < Base(t, p.rows) {
      var r := RowAt(t, n, p.rows);
      DistinctIds(p, t[r], n - Base(t, r));
      assert IdAt(t, n) in t[r];
    }
  }

  lemma RowAtUnique(t: Table, n: nat, len: nat, r: nat)
    requires r < len <= |t| && Base(t, r) <= n < Base(t, r + 1) && n < Base(t, len)
    ensures RowAt(t, n, len) == r
  {
    var k := RowAt(t, n, len);
    if k < r {
      BaseGrows(t, k + 1, r);
    } else if r < k {
      BaseGrows(t, r + 1, k);
    }
  }

  // ----- packed lines -----

  datatype PackedLine = PackedLine(attr: nat, col: seq<nat>)

  // pack: unused columns hold the initial hash, 0.
  function Pack(p: Params, row: seq<nat>, sum: nat): PackedLine
    requires IsTable(p) && |row| <= p.cols
  {
    PackedLine(Or(sum, |row| * SUM_SPACE), Hashes(p, row) + seq(p.cols - |row|, _ => 0))
  }

  predicate RowsFit(p: Params, t: Table) {
    |t| == p.rows && forall r :: 0 <= r < p.rows ==> |t[r]| <= p.cols
  }

  function PackAll(p: Params, t: Table): (lines: seq<PackedLine>)
    requires IsTable(p) && RowsFit(p, t)
    ensures |lines| == p.rows
  {
    seq(p.rows, r requires 0 <= r < p.rows => Pack(p, t[r], Base(t, r)))
  }

  // The lookup the packed form is made for: compare the hash with the first columns of the
  // row, and add the column to the sum.
  function Lookup(p: Params, lines: seq<PackedLine>, q: nat): int
    requires IsTable(p) && |lines| == p.rows
  {
    var line := lines[RowOf(p, q)];
    var count, sum := line.attr / SUM_SPACE, line.attr % SUM_SPACE;
    var k := Find(if count < |line.col| then line.col[..count] else line.col, HashOf(p, q));
    if k < 0 then -1 else sum + k
  }

  // A packed line: the ids before it in the low 24 bits of its attribute, its own count above
  // them, its hashes in order and zeros after them.
  lemma LineUnpacks(p: Params, t: Table, r: nat)
    requires IsPackable(p) && TableOk(p, t) && r < p.rows
    ensures var line := Pack(p, t[r], Base(t, r));
            && line.attr / SUM_SPACE == |t[r]| && line.attr % SUM_SPACE == Base(t, r)
            && line.attr == Base(t, r) + 0x100_0000 * |t[r]|
            && |line.col| == p.cols && line.col[..|t[r]|] == Hashes(p, t[r])
            && forall j :: |t[r]| <= j < p.cols ==> line.col[j] == 0
  {
    BaseBounded(p, t, r);
    MulMonotone(r, p.cols, p.rows, p.cols);
    Pow2Of24();
    OrDisjoint(Base(t, r), |t[r]|, SUM_SPACE);
    ModUnique(Base(t, r) + |t[r]| * SUM_SPACE, SUM_SPACE, |t[r]|, Base(t, r));
  }

  // The hash of a row's ids collides with that of another id.
  predicate Collides(p: Params, t: Table, q: nat)
    requires IsTable(p) && |t| == p.rows
  {
    exists s :: s in t[RowOf(p, q)] && s != q && HashOf(p, s) == HashOf(p, q)
  }

  // The packed lookup gives an id's subscription number if and only if no other id of its
  // row has its hash.
  lemma LookupAgrees(p: Params, t: Table, q: nat)
    requires IsPackable(p) && TableOk(p, t)
    ensures Lookup(p, PackAll(p, t), q) == SubscriptionId(p, t, q) <==> !Collides(p, t, q)
  {
    var r := RowOf(p, q);
    var row := t[r];
    LineUnpacks(p, t, r);
    var line := PackAll(p, t)[r];
    assert (if |row| < |line.col| then line.col[..|row|] else line.col) == Hashes(p, row);
    var k := Find(Hashes(p, row), HashOf(p, q));
    assert Lookup(p, PackAll(p, t), q) == if k < 0 then -1 else Base(t, r) + k;
    if i :| 0 <= i < |row| && HashOf(p, row[i]) == HashOf(p, q) {
      assert HashOf(p, q) == Hashes(p, row)[i];
      assert k >= 0 && Hashes(p, row)[k] == HashOf(p, row[k]);
      assert k == i by {
        assert DistinctHashes(p, row);
      }
      if row[i] == q {
        DistinctIds(p, row, i);
        forall s | s in row && HashOf(p, s) == HashOf(p, q) ensures s == q {
          var j :| 0 <= j < |row| && row[j] == s;
          assert j == i by { assert DistinctHashes(p, row); }
        }
      } else {
        assert row[i] in row;
        assert q !in row by {
          forall j | 0 <= j < |row| ensures row[j] != q {
            assert j != i ==> HashOf(p, row[j]) != HashOf(p, row[i]);
          }
        }
      }
    } else {
      assert q !in row;
    }
  }

  // For every list of subscriptions without a clash, among themselves or with the id asked
  // for, packing and looking up is the same as asking the table.
  lemma PackedTableIsFaithful(p: Params, qs: seq<nat>, q: nat)
    requires IsPackable(p) && !HasClash(p, qs + [q])
    ensures var o := SubscribeAll(p, qs);
            && o.Subscribed? && TableOk(p, o.t)
            && Lookup(p, PackAll(p, o.t), q) == SubscriptionId(p, o.t, q)
            && (Stored(p, o.t, q) ==> q in qs)
  {
    var more := qs + [q];
    forall i, j | 0 <= j < i < |qs| ensures !Clash(p, qs[j], qs[i]) {
      assert !Clash(p, more[j], more[i]);
    }
    AbortsOnClash(p, qs);
    SubscribeAllOk(p, qs);
    var t := SubscribeAll(p, qs).t;
    LookupAgrees(p, t, q);
    forall s | s in t[RowOf(p, q)] && HashOf(p, s) == HashOf(p, q) ensures s == q {
      assert RowOf(p, s) == RowOf(p, q) && Stored(p, t, s);
      var j :| 0 <= j < |qs| && qs[j] == s;
      assert !Clash(p, more[j], more[|qs|]);
    }
  }

  // With the plain hash that is every list of ids below rows * 2^16.
  lemma PlainTableIsFaithful(p: Params, qs: seq<nat>, q: nat)
    requires IsPackable(p) && Small(p, q) && forall i :: 0 <= i < |qs| ==> Small(p, qs[i])
    ensures var o := SubscribeAll(p, qs);
            && o.Subscribed? && TableOk(p, o.t)
            && Lookup(p, PackAll(p, o.t), q) == SubscriptionId(p, o.t, q)
            && (Stored(p, o.t, q) ==> q in qs)
  {
    var more := qs + [q];
    forall i, j | 0 <= j < i < |more| ensures !Clash(p, more[j], more[i]) {
      if Clash(p, more[j], more[i]) {
        HashAndRowDecide(p, more[j], more[i]);
      }
    }
    PackedTableIsFaithful(p, qs, q);
  }
}
