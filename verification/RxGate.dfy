// The loop in which updateRx holds a segment back until lwIP has transmitted what it
// acknowledges, on the values that its loads of the transmit counter find.
module RxGate {

  // The numbers inserted on the way, the last of them, and whether the segment went through.
  datatype Gate = Gate(inserted: seq<nat>, last: nat, open: bool)

  function GateLoop(active: bool, a: nat, last: nat, ts: seq<nat>): Gate
    decreases |ts|
  {
    if !active then Gate([], last, true)
    else if ts == [] then Gate([], last, false)
    else if a <= ts[0] then Gate([], last, true)
    else if |ts| == 1 then Gate([], last, false)
    else if ts[1] <= last then GateLoop(active, a, last, ts[2..])
    else if |ts| == 2 then Gate([], last, false)
    else
      var g := GateLoop(active, a, ts[2], ts[3..]);
      g.(inserted := [ts[2]] + g.inserted)
  }

  // What the counter can show: it never falls.
  predicate Rising(from: nat, ts: seq<nat>)
    decreases |ts|
  {
    ts == [] || (from <= ts[0] && Rising(ts[0], ts[1..]))
  }

  predicate Increasing(from: nat, ns: seq<nat>)
    decreases |ns|
  {
    ns == [] || (from < ns[0] && Increasing(ns[0], ns[1..]))
  }

  lemma {:induction false} RisingTail(from: nat, ts: seq<nat>, k: nat)
    requires Rising(from, ts) && 0 < k <= |ts|
    ensures Rising(ts[k - 1], ts[k..]) && from <= ts[k - 1]
    decreases k
  {
    if k > 1 {
      RisingTail(ts[0], ts[1..], k - 1);
      assert ts[1..][k - 1..] == ts[k..];
    }
  }

  // The inserted numbers go up from the last one inserted before.
  lemma {:induction false} InsertedRise(a: nat, last: nat, from: nat, ts: seq<nat>)
    requires Rising(from, ts)
    ensures Increasing(last, GateLoop(true, a, last, ts).inserted)
    decreases |ts|
  {
    if 2 <= |ts| && ts[0] < a {
      RisingTail(from, ts, 2);
      if ts[1] <= last {
        InsertedRise(a, last, ts[1], ts[2..]);
      } else if 3 <= |ts| {
        RisingTail(from, ts, 3);
        InsertedRise(a, ts[2], ts[2], ts[3..]);
        IncreasingCons(last, ts[2], GateLoop(true, a, ts[2], ts[3..]).inserted);
      }
    }
  }

  lemma IncreasingCons(from: nat, n: nat, ns: seq<nat>)
    requires from < n && Increasing(n, ns)
    ensures Increasing(from, [n] + ns)
  {
    assert ([n] + ns)[1..] == ns;
  }

  // While the segment is held back, a value above the last number inserted brings a new one:
  // the value found next.
  lemma InsertsAfresh(a: nat, last: nat, ts: seq<nat>)
    requires |ts| >= 3 && Rising(0, ts) && ts[0] < a && last < ts[1]
    ensures var g := GateLoop(true, a, last, ts);
            g.inserted != [] && g.inserted[0] == ts[2] <= g.last
  {
    RisingTail(0, ts, 3);
    InsertedRise(a, ts[2], ts[2], ts[3..]);
    LastAbove(ts[2], GateLoop(true, a, ts[2], ts[3..]).inserted);
    InsertedWereSeen(a, ts[2], ts[3..]);
  }

  lemma {:induction false} LastAbove(from: nat, ns: seq<nat>)
    requires Increasing(from, ns)
    ensures ns != [] ==> from < ns[|ns| - 1]
    decreases |ns|
  {
    if |ns| > 1 {
      LastAbove(ns[0], ns[1..]);
    }
  }

  // Each of them was a value of the counter, and the last one is remembered.
  lemma {:induction false} InsertedWereSeen(a: nat, last: nat, ts: seq<nat>)
    ensures var g := GateLoop(true, a, last, ts);
            && g.last == (if g.inserted == [] then last else g.inserted[|g.inserted| - 1])
            && forall n :: n in g.inserted ==> n in ts
    decreases |ts|
  {
    if 2 <= |ts| && ts[0] < a {
      if ts[1] <= last {
        InsertedWereSeen(a, last, ts[2..]);
      } else if 3 <= |ts| {
        InsertedWereSeen(a, ts[2], ts[3..]);
        assert ts[2] in ts;
      }
    }
  }

  // A segment goes through once the counter has reached its number, and not before.
  lemma {:induction false} OpensWhenReached(a: nat, last: nat, ts: seq<nat>)
    ensures GateLoop(true, a, last, ts).open ==> exists i :: 0 <= i < |ts| && a <= ts[i]
    ensures (forall i :: 0 <= i < |ts| ==> a <= ts[i]) && ts != [] ==> GateLoop(true, a, last, ts) == Gate([], last, true)
    decreases |ts|
  {
    if 2 <= |ts| && ts[0] < a {
      var k := if ts[1] <= last then 2 else 3;
      if k <= |ts| {
        OpensWhenReached(a, if k == 2 then last else ts[2], ts[k..]);
        if i :| 0 <= i < |ts[k..]| && a <= ts[k..][i] {
          assert ts[k + i] == ts[k..][i];
        }
      }
    }
  }
}
