// What the fast path guarantees over whole runs, for every interleaving.
module FastPathTheorems {
  import opened Arith
  import opened Options
  import opened SeqNum
  import opened Sums
  import opened FastPath
  import opened FastPathInvariant

  // A run from the start of the program.
  predicate Reached(s0: State, cs: seq<Action>, s: State) {
    Init(s0) && Run(s0, cs) == Some(s)
  }

  lemma ReachedInv(s0: State, cs: seq<Action>, s: State)
    requires Reached(s0, cs, s)
    ensures Inv(s)
  {
    InitInv(s0);
    RunInv(s0, cs);
  }

  // ----- byte conservation -----

  // In every reachable state: F is D plus what is being dummy-written plus what software has
  // accepted and nobody has read back; the wire has carried F plus the hardware bytes not
  // yet counted, less what is accepted and not yet sent; and T <= lwIP <= F.
  lemma BytesAreConserved(s0: State, cs: seq<Action>, s: State, x: nat)
    requires Reached(s0, cs, s) && x < |s.ss|
    ensures var o := s.ss[x];
            && o.f == o.d + ServOut(s.serv, x) + Queued(o) + Pending(s, x)
            && o.wire == o.f + (o.hwFired - o.hwCounted) - (SumOf(o.txq, Self) + Pending(s, x))
            && o.base <= o.t <= o.lwip <= o.f
            && 0 <= o.hwFired - o.hwCounted
    ensures s.gd <= s.gf
    ensures s.serv.ServIdle? || s.serv.len <= MAX_PAYLOAD_SIZE
  {
    ReachedInv(s0, cs, s);
    assert Books(s.ss[x], x, s.serv, Pending(s, x), s.reportOnly);
  }

  function Backlog(o: Session): nat { if o.d <= o.f then o.f - o.d else 0 }

  function CountedOnly(v: Sender): nat { if v.CountedF? then v.p else 0 }

  // The two global counters differ by the sum of the session backlogs, but for the bytes of
  // threads caught between their two additions.
  predicate Spread(s: State) {
    s.gf + SumOf(s.senders, CountedOnly) + (if s.serv.CountHwGf? then s.serv.len else 0)
    == s.gd + SumOf(s.ss, Backlog) + (if s.serv.CountGd? then s.serv.len else 0)
  }

  lemma SendSpread(s: State, i: nat, x: nat, op: SenderOp)
    requires Spread(s) && Enabled(Send(i, x, op), s) && s.ss[x].d <= s.ss[x].f
    ensures Spread(Apply(Send(i, x, op), s))
  {
    var s' := Apply(Send(i, x, op), s);
    SumUpdate(s.ss, x, s'.ss[x], Backlog);
    SumUpdate(s.senders, i, s'.senders[i], CountedOnly);
  }

  lemma ServeSpread(s: State, x: nat, op: ServOp)
    requires Spread(s) && Enabled(Serve(x, op), s) && s.ss[x].d <= s.ss[x].f
    requires op.AddD? ==> s.ss[x].d + s.serv.len <= s.ss[x].f
    ensures Spread(Apply(Serve(x, op), s))
  {
    SumUpdate(s.ss, x, ServWrites(op, s.serv, s.ss[x]), Backlog);
  }

  lemma OtherSpread(s: State, c: Action)
    requires Spread(s) && Enabled(c, s) && (c.Receive? || c.World?)
    ensures Spread(Apply(c, s))
  {
    SumUpdate(s.ss, c.x, NextSession(c, s), Backlog);
    assert Backlog(NextSession(c, s)) == Backlog(s.ss[c.x]);
  }

  lemma StepSpread(s: State, c: Action)
    requires BooksOk(s) && Spread(s) && Enabled(c, s)
    ensures Spread(Apply(c, s))
  {
    assert Books(s.ss[c.x], c.x, s.serv, Pending(s, c.x), s.reportOnly);
    if c.Send? {
      SendSpread(s, c.i, c.x, c.sop);
    } else if c.Serve? {
      ServeSpread(s, c.x, c.vop);
    } else {
      OtherSpread(s, c);
    }
  }

  lemma {:induction false} RunSpread(s: State, cs: seq<Action>)
    requires Inv(s) && Spread(s) && Run(s, cs).Some?
    ensures Spread(Run(s, cs).value)
    decreases |cs|
  {
    if cs != [] {
      StepInv(s, cs[0]);
      StepSpread(s, cs[0]);
      RunSpread(Apply(cs[0], s), cs[1..]);
    }
  }

  lemma GlobalCountersSpread(s0: State, cs: seq<Action>, s: State)
    requires Reached(s0, cs, s)
    ensures Spread(s)
    ensures s.serv.ServIdle? && (forall i :: 0 <= i < |s.senders| ==> s.senders[i].Idle?) ==>
              s.gf - s.gd == SumOf(s.ss, Backlog)
  {
    InitInv(s0);
    forall x | 0 <= x < |s0.ss| ensures Backlog(s0.ss[x]) == 0 {
      assert IsFresh(s0.ss[x]);
    }
    SumBounded(s0.ss, Backlog, 0);
    SumBounded(s0.senders, CountedOnly, 0);
    RunSpread(s0, cs);
    if s.serv.ServIdle? && forall i :: 0 <= i < |s.senders| ==> s.senders[i].Idle? {
      SumBounded(s.senders, CountedOnly, 0);
    }
  }

  // ----- back pressure -----

  // The flag of a session is up only while its dummy is being written, and is up whenever
  // lwIP has taken a part of it.
  predicate PressureAt(o: Session, v: Serv, x: nat) {
    && (o.bp ==> v.Writing? && v.x == x)
    && (v.Writing? && v.x == x && v.sent > 0 ==> o.bp)
  }

  predicate Pressure(s: State) { forall x :: 0 <= x < |s.ss| ==> PressureAt(s.ss[x], s.serv, x) }

  lemma ServePressure(op: ServOp, x: nat, v: Serv, o: Session, reportOnly: bool, p: Session, y: nat)
    requires ServCan(op, v, o) && ServOn(v, x) && PressureAt(o, v, x) && PressureAt(p, v, y) && y != x
    ensures PressureAt(ServWrites(op, v, o), ServNext(op, x, v, o, reportOnly), x)
    ensures PressureAt(p, ServNext(op, x, v, o, reportOnly), y)
  {
  }

  lemma StepPressure(s: State, c: Action)
    requires Enabled(c, s) && Pressure(s)
    ensures Pressure(Apply(c, s))
  {
    var s' := Apply(c, s);
    forall y | 0 <= y < |s'.ss| ensures PressureAt(s'.ss[y], s'.serv, y) {
      assert PressureAt(s.ss[y], s.serv, y) && PressureAt(s.ss[c.x], s.serv, c.x);
      if c.Serve? && y != c.x {
        ServePressure(c.vop, c.x, s.serv, s.ss[c.x], s.reportOnly, s.ss[y], y);
      } else if c.Serve? {
        ServePressure(c.vop, c.x, s.serv, s.ss[c.x], s.reportOnly, FreshSession(0, 0), c.x + 1);
      }
    }
  }

  lemma {:induction false} RunPressure(s: State, cs: seq<Action>)
    requires Pressure(s) && Run(s, cs).Some?
    ensures Pressure(Run(s, cs).value)
    decreases |cs|
  {
    if cs != [] {
      StepPressure(s, cs[0]);
      RunPressure(Apply(cs[0], s), cs[1..]);
    }
  }

  // So, in every reachable state, a session whose dummy lwIP has taken in part accepts no
  // payload, and one of which no dummy is being written is never held back by the flag.
  lemma PartialDummyHoldsBack(s0: State, cs: seq<Action>, s: State, x: nat, v: Sender)
    requires Reached(s0, cs, s) && x < |s.ss| && v.HaveW? && v.x == x
    ensures s.serv.Writing? && s.serv.x == x && s.serv.sent > 0 ==>
              SenderNext(CheckWindow, x, v, s.ss[x], s.gf, s.gd) == Idle
    ensures !s.serv.Writing? || s.serv.x != x ==>
              (SenderNext(CheckWindow, x, v, s.ss[x], s.gf, s.gd) == WindowOk(x, v.p, v.f)
               <==> WindowAllows(v.f, v.a, v.w, v.p))
  {
    forall y | 0 <= y < |s0.ss| ensures PressureAt(s0.ss[y], s0.serv, y) {
      assert IsFresh(s0.ss[y]);
    }
    RunPressure(s0, cs);
    assert PressureAt(s.ss[x], s.serv, x);
  }

  // ----- the send window -----

  // Bytes on the wire or bound to be.
  function Committed(s: State, x: nat): nat
    requires x < |s.ss|
  {
    s.ss[x].wire + SumOf(s.ss[x].txq, Self) + Pending(s, x)
  }

  // ----- the acknowledgement gate -----

  // lwIP never sees an acknowledgement of bytes that it has not transmitted: not in the
  // segments passed on, whose number is exactly the peer's, and not in the inserted ones,
  // which also strictly increase.
  lemma AckGate(s0: State, cs: seq<Action>, s: State, x: nat)
    requires Reached(s0, cs, s) && x < |s.ss|
    ensures s.ss[x].handed <= s.ss[x].t
    ensures Enabled(Receive(x, PushToLwip), s) ==>
              s.ss[x].segs[s.rx.k].ack == s.ss[x].a <= s.ss[x].t
    ensures Enabled(Receive(x, InsertAck), s) ==>
              var o' := NextSession(Receive(x, InsertAck), s);
              s.ss[x].lastInserted < o'.lastInserted <= o'.t
  {
    ReachedAcks(s0, cs, s, x);
  }

  lemma ReachedAcks(s0: State, cs: seq<Action>, s: State, x: nat)
    requires Reached(s0, cs, s) && x < |s.ss|
    ensures PeerOk(s.ss[x]) && RxOk(s.ss[x], s.rx, x)
  {
    ReachedInv(s0, cs, s);
  }

  lemma RunThree(s: State, c1: Action, c2: Action, c3: Action)
    requires Enabled(c1, s) && Enabled(c2, Apply(c1, s)) && Enabled(c3, Apply(c2, Apply(c1, s)))
    ensures Run(s, [c1, c2, c3]) == Some(Apply(c3, Apply(c2, Apply(c1, s))))
  {
    assert Run(s, [c1]) == Some(Apply(c1, s)) by {
      RunAppend(s, [], c1);
      assert [] + [c1] == [c1];
    }
    RunAppend(s, [c1], c2);
    assert [c1] + [c2] == [c1, c2];
    RunAppend(s, [c1, c2], c3);
    assert [c1, c2] + [c3] == [c1, c2, c3];
  }

  // ----- the FPGA in-flight limit -----

  function WaitingOf(v: Sender): nat { if v.Passed? || v.CountedF? then 1 else 0 }

  function ServHw(v: Serv): nat {
    if (v.Writing? || v.CountD? || v.CountGd?) && v.fromHw then v.len else 0
  }

  predicate InFlight(s: State) {
    && s.gf + MAX_PAYLOAD_SIZE * SumOf(s.senders, WaitingOf)
       <= s.gd + ServHw(s.serv) + FPGA_IN_FLIGHT_LIMIT + MAX_PAYLOAD_SIZE * |s.senders|
    && forall i :: 0 <= i < |s.senders| ==> !s.senders[i].HaveGf?
  }

  lemma SendInFlight(s: State, i: nat, x: nat, op: SenderOp)
    requires InFlight(s) && s.gdFirst && Enabled(Send(i, x, op), s) && s.gf < TWO64
    requires SenderOkIn(s.senders[i], s) && s.gd <= s.gf
    ensures InFlight(Apply(Send(i, x, op), s))
  {
    var s', v := Apply(Send(i, x, op), s), s.senders[i];
    assert !v.HaveGf?;
    SumUpdate(s.senders, i, s'.senders[i], WaitingOf);
    if op.LoadGf? {
      ModUnique(s.gf - v.gd, TWO64, 0, s.gf - v.gd);
      SumBounded(s'.senders, WaitingOf, 1);
    }
  }

  lemma StepInFlight(s: State, c: Action)
    requires Inv(s) && InFlight(s) && s.gdFirst && Enabled(c, s) && s.gf < TWO64
    ensures InFlight(Apply(c, s))
  {
    if c.Send? {
      assert SenderOkIn(s.senders[c.i], s);
      SendInFlight(s, c.i, c.x, c.sop);
    }
  }

  lemma {:induction false} RunInFlight(s: State, cs: seq<Action>)
    requires Inv(s) && InFlight(s) && s.gdFirst && Run(s, cs).Some? && Run(s, cs).value.gf < TWO64
    ensures InFlight(Run(s, cs).value) && s.gf < TWO64
    decreases |cs|
  {
    if cs != [] {
      var s' := Apply(cs[0], s);
      RunGfGrows(s', cs[1..]);
      StepInv(s, cs[0]);
      StepInFlight(s, cs[0]);
      RunInFlight(s', cs[1..]);
    }
  }

  lemma {:induction false} RunGfGrows(s: State, cs: seq<Action>)
    requires Run(s, cs).Some?
    ensures s.gf <= Run(s, cs).value.gf && |Run(s, cs).value.senders| == |s.senders|
    decreases |cs|
  {
    if cs != [] {
      RunGfGrows(Apply(cs[0], s), cs[1..]);
    }
  }

  // With N sending threads, the FPGA never holds more than the limit, one payload per thread
  // and one hardware packet, provided that the dummy counter is loaded first.
  lemma InFlightIsBounded(s0: State, cs: seq<Action>, s: State)
    requires Reached(s0, cs, s) && s0.gdFirst && s.gf < TWO64
    ensures 0 <= s.gf - s.gd
            <= FPGA_IN_FLIGHT_LIMIT + MAX_PAYLOAD_SIZE * |s0.senders| + MAX_PAYLOAD_SIZE
  {
    InitInv(s0);
    SumBounded(s0.senders, WaitingOf, 0);
    RunInFlight(s0, cs);
    RunGfGrows(s0, cs);
    ReachedInv(s0, cs, s);
  }
}
