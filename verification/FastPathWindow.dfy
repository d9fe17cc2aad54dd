// How far the committed bytes can pass the window that the peer has offered. The send check
// and the count of what it let through are separate steps, so each thread but one can add
// one payload on top of a check that another thread's payload has made stale.
module FastPathWindow {
  import opened Options
  import opened Sums
  import opened FastPath
  import opened FastPathInvariant
  import opened FastPathTheorems
  import opened FastPathLimits

  // ----- senders that carry a load of F -----

  predicate CarriesF(v: Sender) {
    v.HaveF? || v.HaveFA? || v.HaveW? || v.WindowOk? || v.HaveGf? || v.HaveGd? || v.Passed?
  }

  // What a sender may still add to session x, if a right edge of e is enough for it.
  function FitOf(v: Sender, x: nat, e: nat): nat {
    if CarriesF(v) && v.x == x && v.f + v.p + WND_MARGIN <= e then v.p else 0
  }

  function FitFor(x: nat, e: nat): Sender -> nat {
    (v: Sender) => FitOf(v, x, e)
  }

  // Only these threads carry a load of session x.
  predicate OnlyThese(s: State, x: nat, threads: set<nat>) {
    forall i :: 0 <= i < |s.senders| && i !in threads ==> !(CarriesF(s.senders[i]) && s.senders[i].x == x)
  }

  predicate SentBy(cs: seq<Action>, x: nat, threads: set<nat>) {
    forall j :: 0 <= j < |cs| && cs[j].Send? && cs[j].x == x ==> cs[j].i in threads
  }

  // No edge that the peer has offered lies beyond e.
  predicate Covers(o: Session, e: nat) {
    forall k :: 0 <= k < |o.segs| ==> o.segs[k].ack + TrueWnd(o, k) <= e
  }

  // Counted bytes, what may still be added, and the margin, against n threads; hardware
  // bytes count from h on.
  predicate Bounded(s: State, x: nat, e: nat, h: nat, n: nat)
    requires x < |s.ss|
  {
    && h <= s.ss[x].hwCounted
    && s.ss[x].f + SumOf(s.senders, FitFor(x, e)) + WND_MARGIN + MAX_PAYLOAD_SIZE
       <= e + MAX_PAYLOAD_SIZE * n + (s.ss[x].hwCounted - h)
  }

  lemma SumSplitLast(xs: seq<Sender>, w: Sender -> nat)
    requires xs != []
    ensures SumOf(xs, w) == SumOf(xs[..|xs| - 1], w) + w(xs[|xs| - 1])
  {
    var front, last := xs[..|xs| - 1], [xs[|xs| - 1]];
    assert xs == front + last && last[1..] == [];
    SumAppend(front, last, w);
    assert SumOf(last, w) == w(last[0]) + SumOf(last[1..], w);
  }

  lemma {:induction false} SumInSet(xs: seq<Sender>, w: Sender -> nat, t: set<nat>)
    requires forall j :: 0 <= j < |xs| ==> w(xs[j]) <= MAX_PAYLOAD_SIZE
    requires forall j :: 0 <= j < |xs| && j !in t ==> w(xs[j]) == 0
    ensures SumOf(xs, w) <= MAX_PAYLOAD_SIZE * |t|
    decreases |xs|
  {
    if xs != [] {
      var n := |xs| - 1;
      SumSplitLast(xs, w);
      SumInSet(xs[..n], w, t - {n});
      if n !in t {
        assert t - {n} == t;
      }
    }
  }

  // What the threads other than i carry.
  lemma OthersFit(s: State, i: nat, v: Sender, x: nat, e: nat, threads: set<nat>)
    requires i < |s.senders| && i in threads && OnlyThese(s, x, threads) && SendersOk(s)
    ensures SumOf(s.senders[i := v], FitFor(x, e))
            == SumOf(s.senders, FitFor(x, e)) - FitOf(s.senders[i], x, e) + FitOf(v, x, e)
            <= MAX_PAYLOAD_SIZE * (|threads| - 1) + FitOf(v, x, e)
  {
    SumUpdate(s.senders, i, v, FitFor(x, e));
    SumUpdate(s.senders, i, Idle, FitFor(x, e));
    var others := s.senders[i := Idle];
    forall j | 0 <= j < |others|
      ensures FitOf(others[j], x, e) <= MAX_PAYLOAD_SIZE && (j !in threads - {i} ==> FitOf(others[j], x, e) == 0)
    {
      assert SenderOkIn(s.senders[j], s);
    }
    SumInSet(others, FitFor(x, e), threads - {i});
    assert |threads - {i}| == |threads| - 1;
  }

  // ----- one step -----

  lemma FittingPayload(o: Session, v: Sender, e: nat)
    requires v.Passed? && Offered(o, v.f + v.p + WND_MARGIN) && Covers(o, e)
    ensures v.f + v.p + WND_MARGIN <= e
  {
    var k :| 0 <= k < |o.segs| && v.f + v.p + WND_MARGIN <= o.segs[k].ack + TrueWnd(o, k);
  }

  lemma SendBounded(s: State, i: nat, x: nat, op: SenderOp, e: nat, h: nat, threads: set<nat>)
    requires SendersOk(s) && OnlyThese(s, x, threads) && i in threads && Enabled(Send(i, x, op), s)
    requires Covers(s.ss[x], e) && Bounded(s, x, e, h, |threads|)
    ensures Bounded(Apply(Send(i, x, op), s), x, e, h, |threads|)
  {
    var s', v := Apply(Send(i, x, op), s), s.senders[i];
    OthersFit(s, i, s'.senders[i], x, e, threads);
    assert SenderOkIn(v, s);
    if op.AddF? {
      FittingPayload(s.ss[x], v, e);
    }
  }

  lemma SendElsewhere(s: State, i: nat, y: nat, op: SenderOp, x: nat, e: nat, h: nat, n: nat)
    requires Enabled(Send(i, y, op), s) && y != x < |s.ss| && Bounded(s, x, e, h, n)
    ensures Bounded(Apply(Send(i, y, op), s), x, e, h, n)
  {
    SumUpdate(s.senders, i, Apply(Send(i, y, op), s).senders[i], FitFor(x, e));
  }

  lemma StepBounded(s: State, c: Action, x: nat, e: nat, h: nat, threads: set<nat>)
    requires SendersOk(s) && Enabled(c, s) && x < |s.ss| && OnlyThese(s, x, threads) && SentBy([c], x, threads)
    requires Covers(s.ss[x], e) && Bounded(s, x, e, h, |threads|)
    ensures Bounded(Apply(c, s), x, e, h, |threads|)
  {
    if c.Send? {
      if c.x == x {
        assert [c][0].i in threads;
        SendBounded(s, c.i, x, c.sop, e, h, threads);
      } else {
        SendElsewhere(s, c.i, c.x, c.sop, x, e, h, |threads|);
      }
    }
  }

  lemma StepOnlyThese(s: State, c: Action, x: nat, threads: set<nat>)
    requires Enabled(c, s) && OnlyThese(s, x, threads) && SentBy([c], x, threads)
    ensures OnlyThese(Apply(c, s), x, threads)
  {
    assert c.Send? && c.x == x ==> [c][0].i in threads;
  }

  // ----- runs -----

  lemma CoversBefore(o: Session, o': Session, e: nat)
    requires Grown(o, o') && Covers(o', e)
    ensures Covers(o, e)
  {
    forall k | 0 <= k < |o.segs| ensures o.segs[k].ack + TrueWnd(o, k) <= e {
      assert o'.segs[k] == o.segs[k] && o'.segs[0] == o.segs[0];
    }
  }

  lemma StepGrows(s: State, c: Action, x: nat)
    requires Inv(s) && Enabled(c, s) && x < |s.ss|
    ensures |Apply(c, s).ss| == |s.ss| && Grown(s.ss[x], Apply(c, s).ss[x])
  {
    NextSessionGrows(s, c);
  }

  lemma {:induction false} RunGrows(s: State, cs: seq<Action>, x: nat)
    requires Inv(s) && Run(s, cs).Some? && x < |s.ss|
    ensures |Run(s, cs).value.ss| == |s.ss| && Grown(s.ss[x], Run(s, cs).value.ss[x])
    decreases |cs|
  {
    if cs != [] {
      StepGrows(s, cs[0], x);
      StepInv(s, cs[0]);
      RunGrows(Apply(cs[0], s), cs[1..], x);
    }
  }

  lemma {:induction false} RunBounded(s: State, cs: seq<Action>, s': State, x: nat, e: nat, h: nat, threads: set<nat>)
    requires Inv(s) && Run(s, cs) == Some(s') && x < |s.ss| == |s'.ss|
    requires OnlyThese(s, x, threads) && SentBy(cs, x, threads)
    requires Covers(s'.ss[x], e) && Bounded(s, x, e, h, |threads|)
    ensures Bounded(s', x, e, h, |threads|)
    decreases |cs|
  {
    if cs != [] {
      var c, rest, next := cs[0], cs[1..], Apply(cs[0], s);
      RunGrows(s, cs, x);
      CoversBefore(s.ss[x], s'.ss[x], e);
      assert forall j :: 0 <= j < |rest| ==> rest[j] == cs[j + 1];
      StepBounded(s, c, x, e, h, threads);
      StepOnlyThese(s, c, x, threads);
      StepInv(s, c);
      RunBounded(next, rest, s', x, e, h, threads);
    }
  }

  // From any state in which no thread carries a load of the session, over every run: the
  // committed bytes stay the margin below every edge beyond the offered ones, but for one
  // payload of each thread less one, and the hardware bytes fired since or not yet counted
  // then.
  lemma CommittedStaysNearWindow(s0: State, cs0: seq<Action>, s1: State, cs: seq<Action>, s: State, x: nat,
                                 threads: set<nat>, e: nat)
    requires Reached(s0, cs0, s1) && Run(s1, cs) == Some(s) && x < |s1.ss| == |s.ss|
    requires OnlyThese(s1, x, {}) && SentBy(cs, x, threads) && threads != {}
    requires s1.ss[x].f + WND_MARGIN <= e && Covers(s.ss[x], e)
    ensures Committed(s, x) + WND_MARGIN
            <= e + MAX_PAYLOAD_SIZE * (|threads| - 1) + (s.ss[x].hwFired - s1.ss[x].hwCounted)
  {
    ReachedInv(s0, cs0, s1);
    var h := s1.ss[x].hwCounted;
    forall j | 0 <= j < |s1.senders| ensures FitFor(x, e)(s1.senders[j]) == 0 {
    }
    SumBounded(s1.senders, FitFor(x, e), 0);
    RunBounded(s1, cs, s, x, e, h, threads);
    RunInv(s1, cs);
    assert Books(s.ss[x], x, s.serv, Pending(s, x), s.reportOnly);
  }

  // The farthest of the first n edges.
  lemma {:induction false} FarthestEdge(o: Session, n: nat) returns (k: nat)
    requires 0 < n <= |o.segs|
    ensures k < n && forall j :: 0 <= j < n ==> o.segs[j].ack + TrueWnd(o, j) <= o.segs[k].ack + TrueWnd(o, k)
    decreases n
  {
    k := n - 1;
    if n > 1 {
      var j := FarthestEdge(o, n - 1);
      if o.segs[k].ack + TrueWnd(o, k) < o.segs[j].ack + TrueWnd(o, j) {
        k := j;
      }
    }
  }

  // So they stay inside the farthest window as long as the stale payloads and the hardware
  // bytes together do not exceed the margin.
  lemma MarginKeepsInside(s0: State, cs0: seq<Action>, s1: State, cs: seq<Action>, s: State, x: nat, threads: set<nat>)
    requires Reached(s0, cs0, s1) && Run(s1, cs) == Some(s) && x < |s1.ss| == |s.ss|
    requires OnlyThese(s1, x, {}) && SentBy(cs, x, threads) && threads != {}
    requires Offered(s.ss[x], s1.ss[x].f + WND_MARGIN)
    requires MAX_PAYLOAD_SIZE * (|threads| - 1) + (s.ss[x].hwFired - s1.ss[x].hwCounted) <= WND_MARGIN
    ensures Offered(s.ss[x], Committed(s, x))
  {
    var o := s.ss[x];
    var k := FarthestEdge(o, |o.segs|);
    CommittedStaysNearWindow(s0, cs0, s1, cs, s, x, threads, o.segs[k].ack + TrueWnd(o, k));
    assert Committed(s, x) <= o.segs[k].ack + TrueWnd(o, k);
  }

  // ----- inside the window -----

  // Nothing beyond the SYN is committed, or the peer has really offered room for it all.
  predicate InsideWindow(s: State, x: nat)
    requires x < |s.ss|
  {
    Committed(s, x) == s.ss[x].base || Offered(s.ss[x], Committed(s, x))
  }

  // Without hardware fires, runs in which at most n threads send on a session stay inside.
  ghost predicate WindowKept(n: nat) {
    forall s0, cs, s, x: nat, threads {:trigger Reached(s0, cs, s), SentBy(cs, x, threads)} ::
      Reached(s0, cs, s) && x < |s.ss| && SentBy(cs, x, threads) && |threads| <= n && s.ss[x].hwFired == 0 ==>
        InsideWindow(s, x)
  }

  // The first payload needs an edge beyond the margin.
  predicate Begun(s: State, x: nat)
    requires x < |s.ss|
  {
    && (s.ss[x].f == s.ss[x].base + s.ss[x].hwCounted || Offered(s.ss[x], s.ss[x].base + WND_MARGIN))
    && s.ss[x].base <= s.ss[x].f
    && forall i :: 0 <= i < |s.senders| && CarriesF(s.senders[i]) && s.senders[i].x == x ==>
         s.ss[x].base <= s.senders[i].f
  }

  lemma OfferedBelow(o: Session, e: nat, e': nat)
    requires Offered(o, e) && e' <= e
    ensures Offered(o, e')
  {
    var k :| 0 <= k < |o.segs| && e <= o.segs[k].ack + TrueWnd(o, k);
    assert e' <= o.segs[k].ack + TrueWnd(o, k);
  }

  lemma CountBegun(s: State, i: nat, x: nat)
    requires Enabled(Send(i, x, AddF), s) && SenderOkIn(s.senders[i], s) && Begun(s, x)
    requires Grown(s.ss[x], NextSession(Send(i, x, AddF), s))
    ensures Begun(Apply(Send(i, x, AddF), s), x)
  {
    var o, v := s.ss[x], s.senders[i];
    OfferedBelow(o, v.f + v.p + WND_MARGIN, o.base + WND_MARGIN);
    OfferedGrows(o, NextSession(Send(i, x, AddF), s), o.base + WND_MARGIN);
  }

  // A sender changes no more of the session than its queue, but for the count.
  lemma SendSession(s: State, i: nat, y: nat, op: SenderOp, x: nat)
    requires Enabled(Send(i, y, op), s) && x < |s.ss| && !(y == x && op.AddF?)
    ensures var o' := Apply(Send(i, y, op), s).ss[x];
            o' == s.ss[x].(txq := o'.txq)
  {
  }

  lemma QueueKeepsOffer(o: Session, txq: seq<nat>, e: nat)
    requires Offered(o, e)
    ensures Offered(o.(txq := txq), e)
  {
    var k :| 0 <= k < |o.segs| && e <= o.segs[k].ack + TrueWnd(o, k);
    assert TrueWnd(o.(txq := txq), k) == TrueWnd(o, k);
  }

  // What it carries afterwards it has carried before, or has just loaded.
  lemma SendCarries(op: SenderOp, y: nat, v: Sender, o: Session, gf: nat, gd: nat)
    requires SenderCan(op, v, false) && SenderOn(v, y)
    ensures var v' := SenderNext(op, y, v, o, gf, gd);
            CarriesF(v') ==> v'.x == y && (v'.f == o.f || (CarriesF(v) && v.x == y && v'.f == v.f))
  {
  }

  lemma SendBegun(s: State, i: nat, y: nat, op: SenderOp, x: nat)
    requires Enabled(Send(i, y, op), s) && x < |s.ss| && Begun(s, x) && !(y == x && op.AddF?)
    ensures Begun(Apply(Send(i, y, op), s), x)
  {
    var s' := Apply(Send(i, y, op), s);
    SendSession(s, i, y, op, x);
    SendCarries(op, y, s.senders[i], s.ss[y], s.gf, s.gd);
    if Offered(s.ss[x], s.ss[x].base + WND_MARGIN) {
      QueueKeepsOffer(s.ss[x], s'.ss[x].txq, s.ss[x].base + WND_MARGIN);
    }
  }

  lemma OtherBegun(s: State, c: Action, x: nat)
    requires Enabled(c, s) && x < |s.ss| && Begun(s, x) && !c.Send?
    requires Grown(s.ss[x], Apply(c, s).ss[x])
    ensures Begun(Apply(c, s), x)
  {
    if Offered(s.ss[x], s.ss[x].base + WND_MARGIN) {
      OfferedGrows(s.ss[x], Apply(c, s).ss[x], s.ss[x].base + WND_MARGIN);
    }
  }

  lemma StepBegun(s: State, c: Action, x: nat)
    requires SendersOk(s) && AcksOk(s) && Enabled(c, s) && x < |s.ss| && Begun(s, x)
    ensures Begun(Apply(c, s), x)
  {
    NextSessionGrows(s, c);
    if c.Send? && c.x == x && c.sop.AddF? {
      assert SenderOkIn(s.senders[c.i], s);
      CountBegun(s, c.i, x);
    } else if c.Send? {
      SendBegun(s, c.i, c.x, c.sop, x);
    } else {
      OtherBegun(s, c, x);
    }
  }

  lemma {:induction false} RunBegun(s: State, cs: seq<Action>, x: nat)
    requires Inv(s) && Run(s, cs).Some? && x < |s.ss| && Begun(s, x)
    ensures x < |Run(s, cs).value.ss| && Begun(Run(s, cs).value, x)
    decreases |cs|
  {
    if cs != [] {
      StepBegun(s, cs[0], x);
      StepInv(s, cs[0]);
      RunBegun(Apply(cs[0], s), cs[1..], x);
    }
  }

  lemma ReachedBegun(s0: State, cs: seq<Action>, s: State, x: nat)
    requires Reached(s0, cs, s) && x < |s.ss|
    ensures |s0.ss| == |s.ss| && Begun(s, x) && s0.ss[x].hwCounted == 0 && s0.ss[x].f == s.ss[x].base
  {
    InitInv(s0);
    RunSessions(s0, cs);
    assert IsFresh(s0.ss[x]);
    RunBegun(s0, cs, x);
    RunGrows(s0, cs, x);
  }

  lemma ReachedBooks(s0: State, cs: seq<Action>, s: State, x: nat)
    requires Reached(s0, cs, s) && x < |s.ss|
    ensures Committed(s, x) == s.ss[x].f + (s.ss[x].hwFired - s.ss[x].hwCounted)
    ensures s.ss[x].hwCounted <= s.ss[x].hwFired
  {
    ReachedInv(s0, cs, s);
    assert Books(s.ss[x], x, s.serv, Pending(s, x), s.reportOnly);
  }

  lemma TwoThreadsStayInside(s0: State, cs: seq<Action>, s: State, x: nat, threads: set<nat>)
    requires Reached(s0, cs, s) && x < |s.ss| && SentBy(cs, x, threads) && |threads| <= 2 && s.ss[x].hwFired == 0
    ensures InsideWindow(s, x)
  {
    ReachedBegun(s0, cs, s, x);
    ReachedBooks(s0, cs, s, x);
    var o := s.ss[x];
    if o.f != o.base {
      var j :| 0 <= j < |o.segs| && o.base + WND_MARGIN <= o.segs[j].ack + TrueWnd(o, j);
      var k := FarthestEdge(o, |o.segs|);
      var t := if threads == {} then {0} else threads;
      assert Run(s0, []) == Some(s0);
      CommittedStaysNearWindow(s0, [], s0, cs, s, x, t, o.segs[k].ack + TrueWnd(o, k));
      assert Committed(s, x) <= o.segs[k].ack + TrueWnd(o, k);
    }
  }

  lemma {:induction false} RunSessions(s: State, cs: seq<Action>)
    requires Run(s, cs).Some?
    ensures |Run(s, cs).value.ss| == |s.ss|
    decreases |cs|
  {
    if cs != [] {
      RunSessions(Apply(cs[0], s), cs[1..]);
    }
  }

  // ----- three threads can leave the window -----

  // One session and any number of senders.
  function Threads(o: Session, vs: seq<Sender>, rx: Rx): State {
    State([o], vs, ServIdle, rx, 0, 0, false, true)
  }

  lemma ReachSender(R: State -> bool, op: SenderOp, o: Session, vs: seq<Sender>, i: nat)
    requires Closed(R) && R(Threads(o, vs, RxIdle)) && i < |vs| && SenderCan(op, vs[i], true) && SenderOn(vs[i], 0)
    requires !op.AddGf?
    ensures R(Threads(SenderWrites(op, vs[i], o), vs[i := SenderNext(op, 0, vs[i], o, 0, 0)], RxIdle))
  {
    assert Apply(Send(i, 0, op), Threads(o, vs, RxIdle))
           == Threads(SenderWrites(op, vs[i], o), vs[i := SenderNext(op, 0, vs[i], o, 0, 0)], RxIdle);
  }

  lemma ReachRx(R: State -> bool, op: RxOp, o: Session, vs: seq<Sender>, rx: Rx)
    requires Closed(R) && R(Threads(o, vs, rx)) && RxCan(op, rx, o) && RxIdleOrOn(rx, 0)
    ensures R(Threads(RxWrites(op, rx, o), vs, RxNext(op, 0, rx, o)))
  {
    assert Apply(Receive(0, op), Threads(o, vs, rx)) == Threads(RxWrites(op, rx, o), vs, RxNext(op, 0, rx, o));
  }

  // The peer has answered the SYN with a window of 3408 bytes: one payload and the margin.
  const NARROW := 3408

  function Narrow(): Session {
    FreshSession(1, 0).(segs := [Segment(1, NARROW)], taken := 1, ack32 := 1, wnd := NARROW, handed := 1)
  }

  lemma ReachNarrow(R: State -> bool, vs: seq<Sender>)
    requires Closed(R) && R(Threads(FreshSession(1, 0), vs, RxIdle))
    ensures R(Threads(Narrow(), vs, RxIdle))
  {
    var o, seg := FreshSession(1, 0), Segment(1, NARROW);
    assert [] + [seg] == [seg];
    var o1 := o.(segs := [seg]);
    assert Apply(World(0, PeerSend(seg)), Threads(o, vs, RxIdle)) == Threads(o1, vs, RxIdle);
    ReachRx(R, TakeSegment, o1, vs, RxIdle);
    var o2 := o1.(taken := 1, ack32 := 1);
    ReachRx(R, PutWnd, o2, vs, StoreWnd(0, 0, 0));
    var o3 := o2.(wnd := NARROW);
    ReachRx(R, PutAck, o3, vs, StoreAck(0, 0, 0));
    assert RxWrites(PutAck, StoreAck(0, 0, 0), o3) == o3;
    ReachRx(R, TestGate, o3, vs, Gate(0, 0));
    ReachRx(R, PushToLwip, o3, vs, Deliver(0, 0));
  }

  const PASSED: Sender := Passed(0, MAX_PAYLOAD_SIZE, 1)

  lemma ReachPassed(R: State -> bool, vs: seq<Sender>, i: nat)
    requires Closed(R) && i < |vs| && vs[i].Idle? && R(Threads(Narrow(), vs, RxIdle))
    ensures R(Threads(Narrow(), vs[i := PASSED], RxIdle))
  {
    var p, o := MAX_PAYLOAD_SIZE, Narrow();
    ReachSender(R, LoadF(p), o, vs, i);
    var v1 := vs[i := HaveF(0, p, 1)];
    ReachSender(R, LoadOther, o, v1, i);
    var v2 := v1[i := HaveFA(0, p, 1, 1)];
    ReachSender(R, LoadW, o, v2, i);
    var v3 := v2[i := HaveW(0, p, 1, 1, NARROW)];
    ReachSender(R, CheckWindow, o, v3, i);
    var v4 := v3[i := WindowOk(0, p, 1)];
    ReachSender(R, LoadGd, o, v4, i);
    var v5 := v4[i := HaveGd(0, p, 1, 0)];
    ReachSender(R, LoadGf, o, v5, i);
    assert v5[i := PASSED] == vs[i := PASSED];
  }

  function Counted(n: nat): Session { Narrow().(f := 1 + MAX_PAYLOAD_SIZE * n) }

  const COUNTED: Sender := CountedF(0, MAX_PAYLOAD_SIZE)

  lemma ReachCounted(R: State -> bool)
    requires Closed(R) && R(Threads(FreshSession(1, 0), [Idle, Idle, Idle], RxIdle))
    ensures R(Threads(Counted(3), [COUNTED, COUNTED, COUNTED], RxIdle))
  {
    ReachNarrow(R, [Idle, Idle, Idle]);
    ReachPassed(R, [Idle, Idle, Idle], 0);
    assert [Idle, Idle, Idle][0 := PASSED] == [PASSED, Idle, Idle];
    ReachPassed(R, [PASSED, Idle, Idle], 1);
    assert [PASSED, Idle, Idle][1 := PASSED] == [PASSED, PASSED, Idle];
    ReachPassed(R, [PASSED, PASSED, Idle], 2);
    assert [PASSED, PASSED, Idle][2 := PASSED] == [PASSED, PASSED, PASSED];
    assert Narrow() == Counted(0);
    ReachSender(R, AddF, Counted(0), [PASSED, PASSED, PASSED], 0);
    assert [PASSED, PASSED, PASSED][0 := COUNTED] == [COUNTED, PASSED, PASSED];
    ReachSender(R, AddF, Counted(1), [COUNTED, PASSED, PASSED], 1);
    assert [COUNTED, PASSED, PASSED][1 := COUNTED] == [COUNTED, COUNTED, PASSED];
    ReachSender(R, AddF, Counted(2), [COUNTED, COUNTED, PASSED], 2);
    assert [COUNTED, COUNTED, PASSED][2 := COUNTED] == [COUNTED, COUNTED, COUNTED];
  }

  function ThreeStart(): State { Threads(FreshSession(1, 0), [Idle, Idle, Idle], RxIdle) }

  function ThreeCounted(): State { Threads(Counted(3), [COUNTED, COUNTED, COUNTED], RxIdle) }

  lemma ThreeCanReach(s0: State)
    requires s0 == ThreeStart()
    ensures CanReach(s0, ThreeCounted())
  {
    ReachableIsClosed(s0);
    ReachCounted(s => CanReach(s0, s));
  }

  lemma ThreeIsInit()
    ensures Init(ThreeStart())
  {
  }

  // Three threads pass the check before any of them counts its payload: 4081 is committed
  // and 3409 is all that was ever offered.
  lemma ThreeThreadsLeaveWindow() returns (s0: State, cs: seq<Action>, s: State)
    ensures Reached(s0, cs, s) && |s0.senders| == 3 && |s0.ss| == |s.ss| == 1
    ensures s.ss[0].hwFired == 0 && s.ss[0].base == 1
    ensures Committed(s, 0) == 4081 && Covers(s.ss[0], 3409) && Offered(s.ss[0], 3409)
    ensures s0.ss[0].f == 1 && s0.ss[0].hwCounted == 0
  {
    s0, s := ThreeStart(), ThreeCounted();
    ThreeCanReach(s0);
    cs :| Run(s0, cs) == Some(s);
    ThreeIsInit();
    ReachedBooks(s0, cs, s, 0);
    assert 3409 <= s.ss[0].segs[0].ack + TrueWnd(s.ss[0], 0);
  }

  // No thread sends but those there are.
  lemma {:induction false} SendersSend(s: State, cs: seq<Action>, x: nat, threads: set<nat>)
    requires Run(s, cs).Some? && forall i :: 0 <= i < |s.senders| ==> i in threads
    ensures SentBy(cs, x, threads)
    decreases |cs|
  {
    if cs != [] {
      SendersSend(Apply(cs[0], s), cs[1..], x, threads);
      assert forall j :: 0 < j < |cs| ==> cs[j] == cs[1..][j - 1];
    }
  }

  lemma TwoSend(s: State, cs: seq<Action>, x: nat)
    requires Run(s, cs).Some? && |s.senders| == 2
    ensures SentBy(cs, x, {0, 1})
  {
    SendersSend(s, cs, x, {0, 1});
  }

  lemma ThreeSend(s: State, cs: seq<Action>, x: nat)
    requires Run(s, cs).Some? && |s.senders| == 3
    ensures SentBy(cs, x, {0, 1, 2})
  {
    SendersSend(s, cs, x, {0, 1, 2});
  }

  lemma OutsideCover(s: State, x: nat, e: nat)
    requires x < |s.ss| && Covers(s.ss[x], e) && e < Committed(s, x) && Committed(s, x) != s.ss[x].base
    ensures !InsideWindow(s, x)
  {
  }

  lemma NotKept(s0: State, cs: seq<Action>, s: State, x: nat, threads: set<nat>, n: nat)
    requires Reached(s0, cs, s) && x < |s.ss| && SentBy(cs, x, threads) && |threads| <= n
    requires s.ss[x].hwFired == 0 && !InsideWindow(s, x)
    ensures !WindowKept(n)
  {
  }

  lemma ThreeThreadsBreak(n: nat)
    requires n >= 3
    ensures !WindowKept(n)
  {
    var s0, cs, s := ThreeThreadsLeaveWindow();
    ThreeSend(s0, cs, 0);
    OutsideCover(s, 0, 3409);
    NotKept(s0, cs, s, 0, {0, 1, 2}, n);
  }

  // Without hardware fires the committed bytes stay inside an offered window, on all runs, if
  // and only if at most two threads send on the session.
  lemma WindowNeedsTwoThreads(n: nat)
    ensures WindowKept(n) <==> n <= 2
  {
    if n <= 2 {
      forall s0, cs, s, x: nat, threads |
        Reached(s0, cs, s) && x < |s.ss| && SentBy(cs, x, threads) && |threads| <= n && s.ss[x].hwFired == 0
        ensures InsideWindow(s, x)
      {
        TwoThreadsStayInside(s0, cs, s, x, threads);
      }
    } else {
      ThreeThreadsBreak(n);
    }
  }

  // ----- with hardware fires -----

  // A run from a state in which no thread carries a load of the session, on which only these
  // threads send on it.
  predicate Stretch(s0: State, cs0: seq<Action>, s1: State, cs: seq<Action>, s: State, x: nat, threads: set<nat>) {
    && Reached(s0, cs0, s1) && Run(s1, cs) == Some(s) && x < |s1.ss| == |s.ss|
    && OnlyThese(s1, x, {}) && SentBy(cs, x, threads)
  }

  // Runs of at most n sending threads, with at most h hardware bytes fired on them or not yet
  // counted at their start, stay inside a window that has room for the margin.
  ghost predicate WindowKeptWithFires(n: nat, h: nat) {
    forall s0, cs0, s1, cs, s, x: nat, threads {:trigger Stretch(s0, cs0, s1, cs, s, x, threads)} ::
      (Stretch(s0, cs0, s1, cs, s, x, threads) && |threads| <= n && s.ss[x].hwFired - s1.ss[x].hwCounted <= h &&
       Offered(s.ss[x], s1.ss[x].f + WND_MARGIN)) ==>
        Offered(s.ss[x], Committed(s, x))
  }

  // The payloads of the threads whose check may be stale.
  function StalePayloads(n: nat): nat { if n == 0 then 0 else MAX_PAYLOAD_SIZE * (n - 1) }

  lemma StretchStaysInside(s0: State, cs0: seq<Action>, s1: State, cs: seq<Action>, s: State, x: nat, threads: set<nat>)
    requires Stretch(s0, cs0, s1, cs, s, x, threads) && Offered(s.ss[x], s1.ss[x].f + WND_MARGIN)
    requires StalePayloads(|threads|) + (s.ss[x].hwFired - s1.ss[x].hwCounted) <= WND_MARGIN
    ensures Offered(s.ss[x], Committed(s, x))
  {
    var some: set<nat> := if threads == {} then {0} else threads;
    assert SentBy(cs, x, some);
    MarginKeepsInside(s0, cs0, s1, cs, s, x, some);
  }

  // A run from the start that ends beyond every window refutes the budget that it keeps to.
  lemma RunBreaks(s0: State, cs: seq<Action>, s: State, threads: set<nat>, e: nat, n: nat, h: nat)
    requires Reached(s0, cs, s) && |s0.ss| == |s.ss| == 1 && SentBy(cs, 0, threads)
    requires |threads| <= n && s.ss[0].hwFired <= h && s0.ss[0].hwCounted == 0
    requires Offered(s.ss[0], s0.ss[0].f + WND_MARGIN) && Covers(s.ss[0], e) && e < Committed(s, 0)
    ensures !WindowKeptWithFires(n, h)
  {
    assert Run(s0, []) == Some(s0);
    assert Stretch(s0, [], s0, cs, s, 0, threads);
  }

  lemma ReachFire(R: State -> bool, o: Session, vs: seq<Sender>, len: nat)
    requires Closed(R) && R(Threads(o, vs, RxIdle)) && 0 < len <= MAX_PAYLOAD_SIZE
    ensures R(Threads(AfterFire(o, len), vs, RxIdle))
  {
    assert Apply(World(0, HwFire(len)), Threads(o, vs, RxIdle)) == Threads(AfterFire(o, len), vs, RxIdle);
  }

  function AfterFire(o: Session, len: nat): Session {
    o.(wire := o.wire + len, hwFired := o.hwFired + len, copies := o.copies + [Copy(len, true)])
  }

  // No thread sends, the window is the margin, and the hardware fires one byte more.
  function Overfired(): Session {
    AfterFire(AfterFire(FreshSession(1, 0).(segs := [Segment(1, WND_MARGIN)]), MAX_PAYLOAD_SIZE), 689)
  }

  lemma ReachOverfired(R: State -> bool)
    requires Closed(R) && R(Threads(FreshSession(1, 0), [], RxIdle))
    ensures R(Threads(Overfired(), [], RxIdle))
  {
    var o, seg := FreshSession(1, 0), Segment(1, WND_MARGIN);
    assert [] + [seg] == [seg];
    var o1 := o.(segs := [seg]);
    assert Apply(World(0, PeerSend(seg)), Threads(o, [], RxIdle)) == Threads(o1, [], RxIdle);
    ReachFire(R, o1, [], MAX_PAYLOAD_SIZE);
    ReachFire(R, AfterFire(o1, MAX_PAYLOAD_SIZE), [], 689);
  }

  // Two threads fill the window past their check, and the hardware fires what is left of the
  // margin and one byte more.
  lemma ReachTwoAndFire(R: State -> bool)
    requires Closed(R) && R(Threads(FreshSession(1, 0), [Idle, Idle], RxIdle))
    ensures R(Threads(AfterFire(Counted(2), 689), [COUNTED, COUNTED], RxIdle))
  {
    ReachNarrow(R, [Idle, Idle]);
    ReachPassed(R, [Idle, Idle], 0);
    assert [Idle, Idle][0 := PASSED] == [PASSED, Idle];
    ReachPassed(R, [PASSED, Idle], 1);
    assert [PASSED, Idle][1 := PASSED] == [PASSED, PASSED];
    assert Narrow() == Counted(0);
    ReachSender(R, AddF, Counted(0), [PASSED, PASSED], 0);
    assert [PASSED, PASSED][0 := COUNTED] == [COUNTED, PASSED];
    ReachSender(R, AddF, Counted(1), [COUNTED, PASSED], 1);
    assert [COUNTED, PASSED][1 := COUNTED] == [COUNTED, COUNTED];
    ReachFire(R, Counted(2), [COUNTED, COUNTED], 689);
  }

  lemma OverfiredBreaks(n: nat, h: nat)
    requires h > WND_MARGIN
    ensures !WindowKeptWithFires(n, h)
  {
    var s0, s := Threads(FreshSession(1, 0), [], RxIdle), Threads(Overfired(), [], RxIdle);
    ReachableIsClosed(s0);
    ReachOverfired(r => CanReach(s0, r));
    var cs :| Run(s0, cs) == Some(s);
    assert IsFresh(s0.ss[0]);
    SendersSend(s0, cs, 0, {});
    ReachedBooks(s0, cs, s, 0);
    assert 1 + WND_MARGIN <= s.ss[0].segs[0].ack + TrueWnd(s.ss[0], 0);
    RunBreaks(s0, cs, s, {}, 1 + WND_MARGIN, n, h);
  }

  function TwoStart(): State { Threads(FreshSession(1, 0), [Idle, Idle], RxIdle) }

  function TwoAndFire(): State { Threads(AfterFire(Counted(2), 689), [COUNTED, COUNTED], RxIdle) }

  lemma TwoCanReach(s0: State)
    requires s0 == TwoStart()
    ensures CanReach(s0, TwoAndFire())
  {
    ReachableIsClosed(s0);
    ReachTwoAndFire(r => CanReach(s0, r));
  }

  lemma TwoIsInit()
    ensures Init(TwoStart())
  {
    assert IsFresh(TwoStart().ss[0]);
  }

  lemma TwoAndFireEdge()
    ensures Covers(TwoAndFire().ss[0], 3409) && Offered(TwoAndFire().ss[0], 3409)
  {
    var o := TwoAndFire().ss[0];
    assert o.segs[0].ack + TrueWnd(o, 0) == 3409;
  }

  lemma TwoThreadsAndFire() returns (s0: State, cs: seq<Action>, s: State)
    ensures Reached(s0, cs, s) && |s0.senders| == 2 && |s0.ss| == |s.ss| == 1
    ensures s.ss[0].hwFired == 689 && s0.ss[0].f == 1 && s0.ss[0].hwCounted == 0
    ensures Committed(s, 0) == 3410 && Covers(s.ss[0], 3409) && Offered(s.ss[0], 3409)
  {
    s0, s := TwoStart(), TwoAndFire();
    TwoCanReach(s0);
    cs :| Run(s0, cs) == Some(s);
    TwoIsInit();
    TwoAndFireEdge();
    ReachedBooks(s0, cs, s, 0);
  }

  lemma TwoAndFireBreaks(n: nat, h: nat)
    requires n >= 2 && h > WND_MARGIN - MAX_PAYLOAD_SIZE
    ensures !WindowKeptWithFires(n, h)
  {
    var s0, cs, s := TwoThreadsAndFire();
    TwoSend(s0, cs, 0);
    RunBreaks(s0, cs, s, {0, 1}, 3409, n, h);
  }

  lemma ThreeBreakToo(n: nat, h: nat)
    requires n >= 3
    ensures !WindowKeptWithFires(n, h)
  {
    var s0, cs, s := ThreeThreadsLeaveWindow();
    ThreeSend(s0, cs, 0);
    RunBreaks(s0, cs, s, {0, 1, 2}, 3409, n, h);
  }

  // The committed bytes stay inside the window on all such runs if and only if the stale
  // payloads and the hardware bytes together do not exceed the margin.
  lemma FiresNeedMargin(n: nat, h: nat)
    ensures WindowKeptWithFires(n, h) <==> StalePayloads(n) + h <= WND_MARGIN
  {
    if StalePayloads(n) + h <= WND_MARGIN {
      forall s0, cs0, s1, cs, s, x: nat, threads {:trigger Stretch(s0, cs0, s1, cs, s, x, threads)} |
        Stretch(s0, cs0, s1, cs, s, x, threads) && |threads| <= n && s.ss[x].hwFired - s1.ss[x].hwCounted <= h
        && Offered(s.ss[x], s1.ss[x].f + WND_MARGIN)
        ensures Offered(s.ss[x], Committed(s, x))
      {
        StretchStaysInside(s0, cs0, s1, cs, s, x, threads);
      }
    } else if n >= 3 {
      ThreeBreakToo(n, h);
    } else if n == 2 {
      TwoAndFireBreaks(n, h);
    } else {
      OverfiredBreaks(n, h);
    }
  }
}
