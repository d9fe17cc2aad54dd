// The wait loop of updateRx is never the only thing left to run.
module FastPathProgress {
  import opened Options
  import opened FastPath
  import opened FastPathInvariant
  import opened FastPathTheorems

  // While the gate holds back an acknowledgement, lwIP has bytes to transmit, or the service
  // thread is busy with this session, or the session's feedback is not all read.
  lemma BlockedGateHasWork(s0: State, cs: seq<Action>, s: State, x: nat)
    requires Reached(s0, cs, s) && x < |s.ss| && s.ss[x].a > s.ss[x].t
    ensures s.ss[x].t < s.ss[x].lwip || (!s.serv.ServIdle? && s.serv.x == x) || s.ss[x].copies != []
  {
    ReachedInv(s0, cs, s);
    AckedIsOnWire(s, x);
    assert Books(s.ss[x], x, s.serv, Pending(s, x), s.reportOnly);
  }

  lemma AckedIsOnWire(s: State, x: nat)
    requires Inv(s) && x < |s.ss|
    ensures s.ss[x].a <= s.ss[x].wire
  {
    var o := s.ss[x];
    assert Books(o, x, s.serv, Pending(s, x), s.reportOnly) && PeerOk(o) && RxOk(o, s.rx, x);
  }

  lemma {:induction false} RunConcat(s: State, as1: seq<Action>, as2: seq<Action>)
    requires Run(s, as1).Some?
    ensures Run(s, as1 + as2) == Run(Run(s, as1).value, as2)
    decreases |as1|
  {
    if as1 == [] {
      assert as1 + as2 == as2;
    } else {
      assert (as1 + as2)[1..] == as1[1..] + as2;
      RunConcat(Apply(as1[0], s), as1[1..], as2);
    }
  }

  // What the service thread leaves alone.
  predicate Untouched(o: Session, o': Session) {
    o'.a == o.a && o'.t == o.t && o'.wire == o.wire
  }

  predicate SameCopies(s: State, s': State) {
    |s'.ss| == |s.ss| && forall x :: 0 <= x < |s.ss| ==> s'.ss[x].copies == s.ss[x].copies
  }

  ghost predicate ServiceOnly(s: State, s': State) {
    && |s'.ss| == |s.ss| && s'.rx == s.rx && s'.senders == s.senders
    && forall x :: 0 <= x < |s.ss| ==> Untouched(s.ss[x], s'.ss[x])
  }

  function StepsLeft(v: Serv): nat {
    match v
    case ServIdle => 0
    case CountGd(_, _, _) => 1
    case CountD(_, _, _) => 2
    case Writing(_, _, _, _) => 3
    case CountHwGf(_, _) => 4
    case CountHwF(_, _) => 5
  }

  // The next step of the service thread when lwIP takes all that it is offered.
  function NextServOp(v: Serv): ServOp {
    match v
    case ServIdle => TakeCopy
    case CountHwF(_, _) => AddHwF
    case CountHwGf(_, _) => AddHwGf
    case Writing(_, len, _, sent) => Write(if sent < len then len - sent else 0)
    case CountD(_, _, _) => AddD
    case CountGd(_, _, _) => AddGd
  }

  predicate SentOk(v: Serv) { v.Writing? ==> v.sent <= v.len }

  lemma ServiceStepLocal(v: Serv, x: nat, o: Session, reportOnly: bool)
    requires ServOn(v, x) && SentOk(v) && (v.ServIdle? ==> o.copies != [])
    ensures ServCan(NextServOp(v), v, o)
    ensures var o' := ServWrites(NextServOp(v), v, o);
            && Untouched(o, o')
            && o'.copies == if v.ServIdle? then o.copies[1..] else o.copies
    ensures v.ServIdle? || StepsLeft(ServNext(NextServOp(v), x, v, o, reportOnly)) < StepsLeft(v)
    ensures v.ServIdle? || SentOk(ServNext(NextServOp(v), x, v, o, reportOnly))
  {
  }

  lemma RunCons(s: State, c: Action, cs: seq<Action>)
    requires Enabled(c, s)
    ensures Run(s, [c] + cs) == Run(Apply(c, s), cs)
  {
    assert ([c] + cs)[1..] == cs;
  }

  lemma ServiceStepEffect(s: State, x: nat)
    requires x < |s.ss| && ServOn(s.serv, x) && SentOk(s.serv) && (s.serv.ServIdle? ==> s.ss[x].copies != [])
    ensures Enabled(Serve(x, NextServOp(s.serv)), s)
    ensures var s' := Apply(Serve(x, NextServOp(s.serv)), s);
            && ServiceOnly(s, s')
            && (s.serv.ServIdle? || (StepsLeft(s'.serv) < StepsLeft(s.serv) && SentOk(s'.serv) && ServOn(s'.serv, x)))
            && s'.ss[x].copies == (if s.serv.ServIdle? then s.ss[x].copies[1..] else s.ss[x].copies)
            && forall y :: 0 <= y < |s.ss| && y != x ==> s'.ss[y] == s.ss[y]
  {
    ServiceStepLocal(s.serv, x, s.ss[x], s.reportOnly);
  }

  lemma ServiceTransitive(s: State, s1: State, s2: State)
    requires ServiceOnly(s, s1) && ServiceOnly(s1, s2)
    ensures ServiceOnly(s, s2)
    ensures SameCopies(s, s1) && SameCopies(s1, s2) ==> SameCopies(s, s2)
  {
    forall x | 0 <= x < |s.ss| ensures Untouched(s.ss[x], s2.ss[x]) {
      assert Untouched(s.ss[x], s1.ss[x]) && Untouched(s1.ss[x], s2.ss[x]);
    }
    if SameCopies(s, s1) && SameCopies(s1, s2) {
      assert forall x :: 0 <= x < |s.ss| ==> s2.ss[x].copies == s1.ss[x].copies == s.ss[x].copies;
    }
  }

  // The sessions whose feedback a run reads, in turn.
  function TakenBy(cs: seq<Action>): seq<nat> {
    if cs == [] then []
    else (if cs[0].Serve? && cs[0].vop.TakeCopy? then [cs[0].x] else []) + TakenBy(cs[1..])
  }

  lemma {:induction false} TakenConcat(as1: seq<Action>, as2: seq<Action>)
    ensures TakenBy(as1 + as2) == TakenBy(as1) + TakenBy(as2)
    decreases |as1|
  {
    if as1 == [] {
      assert as1 + as2 == as2;
    } else {
      var rest, first := as1[1..], if as1[0].Serve? && as1[0].vop.TakeCopy? then [as1[0].x] else [];
      assert (as1 + as2)[1..] == rest + as2;
      TakenConcat(rest, as2);
      assert first + TakenBy(rest) + TakenBy(as2) == first + (TakenBy(rest) + TakenBy(as2));
    }
  }

  lemma {:induction false} FinishRun(s: State) returns (cs: seq<Action>, s': State)
    requires s.serv.ServIdle? || (SentOk(s.serv) && s.serv.x < |s.ss|)
    ensures Run(s, cs) == Some(s') && s'.serv.ServIdle? && ServiceOnly(s, s') && SameCopies(s, s')
    ensures TakenBy(cs) == [] && forall c :: c in cs ==> c.Serve?
    decreases StepsLeft(s.serv)
  {
    if s.serv.ServIdle? {
      cs, s' := [], s;
    } else {
      var c := Serve(s.serv.x, NextServOp(s.serv));
      ServiceStepEffect(s, s.serv.x);
      var s1, rest := Apply(c, s), [];
      assert SameCopies(s, s1);
      rest, s' := FinishRun(s1);
      ServiceTransitive(s, s1, s');
      RunCons(s, c, rest);
      cs := [c] + rest;
    }
  }

  // The service thread completes what it has begun; no other feedback is read.
  lemma FinishDummyWrite(s: State) returns (cs: seq<Action>, s': State)
    requires Inv(s)
    ensures Run(s, cs) == Some(s') && Inv(s') && s'.serv.ServIdle? && ServiceOnly(s, s') && SameCopies(s, s')
    ensures TakenBy(cs) == [] && forall c :: c in cs ==> c.Serve?
  {
    cs, s' := FinishRun(s);
    RunInv(s, cs);
  }

  // One entry of session x's feedback has been read.
  predicate OneRead(s: State, s': State, x: nat) {
    && |s'.ss| == |s.ss|
    && forall y :: 0 <= y < |s.ss| ==>
         |s'.ss[y].copies| == |s.ss[y].copies| - if y == x then 1 else 0
  }

  lemma ReadOneCopy(s: State, x: nat) returns (cs: seq<Action>, s': State)
    requires x < |s.ss| && s.serv.ServIdle? && s.ss[x].copies != []
    ensures Run(s, cs) == Some(s') && s'.serv.ServIdle? && ServiceOnly(s, s') && OneRead(s, s', x)
    ensures TakenBy(cs) == [x] && forall c :: c in cs ==> c.Serve?
  {
    var c := Serve(x, TakeCopy);
    ServiceStepEffect(s, x);
    var s1, rest := Apply(c, s), [];
    rest, s' := FinishRun(s1);
    ServiceTransitive(s, s1, s');
    RunCons(s, c, rest);
    cs := [c] + rest;
    assert OneRead(s, s1, x);
  }

  // The driver has one feedback queue: order says whose feedback its entries are.
  predicate IsOrder(order: seq<nat>, s: State) {
    && (forall k :: 0 <= k < |order| ==> order[k] < |s.ss|)
    && forall y :: 0 <= y < |s.ss| ==> multiset(order)[y] == |s.ss[y].copies|
  }

  lemma IsOrderRest(order: seq<nat>, s: State, s': State)
    requires order != [] && IsOrder(order, s) && OneRead(s, s', order[0])
    ensures IsOrder(order[1..], s')
  {
    assert order == [order[0]] + order[1..];
  }

  lemma FirstHasFeedback(order: seq<nat>, s: State)
    requires order != [] && IsOrder(order, s)
    ensures order[0] < |s.ss| && s.ss[order[0]].copies != []
  {
    assert order[0] in multiset(order);
  }

  predicate AllRead(s: State) {
    forall y :: 0 <= y < |s.ss| ==> s.ss[y].copies == []
  }

  lemma NothingToRead(s: State)
    requires IsOrder([], s)
    ensures AllRead(s)
  {
    var none: seq<nat> := [];
    assert forall y :: 0 <= y < |s.ss| ==> multiset(none)[y] == |s.ss[y].copies|;
  }

  // Two runs of the service thread, one after the other.
  lemma ServiceInTurn(s: State, cs1: seq<Action>, s1: State, cs2: seq<Action>, s2: State) returns (cs: seq<Action>)
    requires Run(s, cs1) == Some(s1) && ServiceOnly(s, s1) && forall c :: c in cs1 ==> c.Serve?
    requires Run(s1, cs2) == Some(s2) && ServiceOnly(s1, s2) && forall c :: c in cs2 ==> c.Serve?
    ensures Run(s, cs) == Some(s2) && ServiceOnly(s, s2) && forall c :: c in cs ==> c.Serve?
    ensures TakenBy(cs) == TakenBy(cs1) + TakenBy(cs2)
  {
    cs := cs1 + cs2;
    ServiceTransitive(s, s1, s2);
    RunConcat(s, cs1, cs2);
    TakenConcat(cs1, cs2);
  }

  // Whatever the order, the service thread reads all of it.
  lemma {:induction false} ReadInOrder(s: State, order: seq<nat>) returns (cs: seq<Action>, s': State)
    requires s.serv.ServIdle? && IsOrder(order, s)
    ensures Run(s, cs) == Some(s') && s'.serv.ServIdle? && ServiceOnly(s, s') && AllRead(s')
    ensures TakenBy(cs) == order && forall c :: c in cs ==> c.Serve?
    decreases |order|
  {
    if order == [] {
      cs, s' := [], s;
      NothingToRead(s);
    } else {
      FirstHasFeedback(order, s);
      var cs1, s1 := ReadOneCopy(s, order[0]);
      IsOrderRest(order, s, s1);
      var cs2;
      cs2, s' := ReadInOrder(s1, order[1..]);
      cs := ServiceInTurn(s, cs1, s1, cs2, s');
      assert [order[0]] + order[1..] == order;
    }
  }

  // After it has completed what it had begun.
  lemma ReadEverything(s: State, order: seq<nat>) returns (cs: seq<Action>, s': State)
    requires s.serv.ServIdle? || (SentOk(s.serv) && s.serv.x < |s.ss|)
    requires IsOrder(order, s)
    ensures Run(s, cs) == Some(s') && s'.serv.ServIdle? && ServiceOnly(s, s') && AllRead(s')
    ensures TakenBy(cs) == order && forall c :: c in cs ==> c.Serve?
  {
    var cs1, s1 := FinishRun(s);
    IsOrderAfter(order, s, s1);
    var cs2;
    cs2, s' := ReadInOrder(s1, order);
    cs := ServiceInTurn(s, cs1, s1, cs2, s');
    assert [] + order == order;
  }

  lemma IsOrderAfter(order: seq<nat>, s: State, s': State)
    requires IsOrder(order, s) && SameCopies(s, s')
    ensures IsOrder(order, s')
  {
  }

  predicate ServiceOrTransmit(c: Action) {
    c.Serve? || (c.World? && c.wop.Transmit?)
  }

  // From every reachable state the gate of session x can be opened by the service thread and
  // lwIP alone: no help of the peer, the senders or the receive thread is needed. The service
  // thread reads all feedback there is, in the order of the driver's queue, whichever it is.
  lemma GateCanOpen(s0: State, cs0: seq<Action>, s: State, x: nat, order: seq<nat>) returns (cs: seq<Action>, s': State)
    requires Reached(s0, cs0, s) && x < |s.ss| && IsOrder(order, s)
    ensures Run(s, cs) == Some(s') && |s'.ss| == |s.ss| && s'.rx == s.rx
    ensures s'.ss[x].a == s.ss[x].a <= s'.ss[x].t
    ensures TakenBy(cs) == order && forall c :: c in cs ==> ServiceOrTransmit(c)
  {
    ReachedServ(s0, cs0, s);
    var service, s1 := ReadEverything(s, order);
    RunConcat(s0, cs0, service);
    var c := TransmitAll(s0, cs0 + service, s1, x);
    s' := Apply(c, s1);
    RunAppend(s, service, c);
    TakenConcat(service, [c]);
    cs := service + [c];
    assert Untouched(s.ss[x], s1.ss[x]);
  }

  lemma ReachedServ(s0: State, cs: seq<Action>, s: State)
    requires Reached(s0, cs, s)
    ensures s.serv.ServIdle? || (SentOk(s.serv) && s.serv.x < |s.ss|)
  {
    ReachedInv(s0, cs, s);
  }

  lemma TransmitAll(s0: State, cs: seq<Action>, s: State, x: nat) returns (c: Action)
    requires Reached(s0, cs, s) && x < |s.ss| && s.serv.ServIdle? && s.ss[x].copies == []
    ensures c.World? && c.wop.Transmit? && Enabled(c, s)
    ensures var s' := Apply(c, s);
            |s'.ss| == |s.ss| && s'.rx == s.rx && s'.ss[x].a == s.ss[x].a <= s'.ss[x].t
  {
    ReachedInv(s0, cs, s);
    var o := s.ss[x];
    assert Books(o, x, s.serv, Pending(s, x), s.reportOnly);
    AckedIsOnWire(s, x);
    c := World(x, Transmit(o.lwip - o.t));
  }

  // There is such an order in every state.
  lemma SomeOrder(s: State) returns (order: seq<nat>)
    ensures IsOrder(order, s)
  {
    order := OrderOfFirst(s, |s.ss|);
  }

  lemma {:induction false} OrderOfFirst(s: State, n: nat) returns (order: seq<nat>)
    requires n <= |s.ss|
    ensures forall k :: 0 <= k < |order| ==> order[k] < n
    ensures forall y :: 0 <= y < |s.ss| ==> multiset(order)[y] == if y < n then |s.ss[y].copies| else 0
    decreases n
  {
    order := [];
    if n > 0 {
      var before := OrderOfFirst(s, n - 1);
      var own := seq(|s.ss[n - 1].copies|, _ => n - 1);
      AllSame(own, n - 1);
      order := before + own;
    }
  }

  lemma {:induction false} AllSame(ys: seq<nat>, y: nat)
    requires forall k :: 0 <= k < |ys| ==> ys[k] == y
    ensures forall z: nat :: multiset(ys)[z] == if z == y then |ys| else 0
    decreases |ys|
  {
    if ys != [] {
      AllSame(ys[1..], y);
      assert ys == [y] + ys[1..];
    }
  }
}
