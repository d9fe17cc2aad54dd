// The session's methods against the steps of the fast path: what a method does is a run of its
// thread's steps. The send decision is compared where it is defined, in TcpSession.
module SessionSteps {
  import opened Arith
  import opened Options
  import opened SeqNum
  import opened FastPath
  import opened FastPathProgress
  import opened FastPathTheorems
  import RxGate
  import TcpSession

  function With(s: State, x: nat, o: Session): State
    requires x < |s.ss|
  {
    s.(ss := s.ss[x := o])
  }

  lemma RunOne(s: State, c: Action)
    requires Enabled(c, s)
    ensures Run(s, [c]) == Some(Apply(c, s))
  {
    RunCons(s, c, []);
    assert [c] + [] == [c];
  }

  lemma RunTwo(s: State, c1: Action, c2: Action)
    requires Enabled(c1, s) && Enabled(c2, Apply(c1, s))
    ensures Run(s, [c1, c2]) == Some(Apply(c2, Apply(c1, s)))
  {
    RunOne(Apply(c1, s), c2);
    RunCons(s, c1, [c2]);
    assert [c1] + [c2] == [c1, c2];
  }

  lemma Collapse(ss: seq<Session>, x: nat, o1: Session, o2: Session)
    requires x < |ss|
    ensures ss[x := o1][x := o2] == ss[x := o2]
  {
  }

  // ----- lwipDummyWrite -----

  // The answers of lwip_write, one step each.
  lemma {:induction false} WritesAreSteps(s: State, x: nat, ws: seq<TcpSession.Wrote>) returns (cs: seq<Action>)
    requires x < |s.ss| && s.serv.Writing? && s.serv.x == x && s.serv.sent <= s.serv.len
    requires TcpSession.Honest(ws, s.serv.len - s.serv.sent)
    requires TcpSession.WriteLoop(true, ws, s.serv.len - s.serv.sent).Written?
    ensures var o, v := s.ss[x], s.serv;
            Run(s, cs) == Some(With(s, x, o.(lwip := o.lwip + (v.len - v.sent), bp := false))
                               .(serv := CountD(x, v.len, v.fromHw)))
    decreases |ws|
  {
    var n := TcpSession.Taken(ws[0]);
    var c := Serve(x, Write(n));
    if n == s.serv.len - s.serv.sent {
      cs := [c];
      RunOne(s, c);
    } else {
      var s1 := Apply(c, s);
      var rest := WritesAreSteps(s1, x, ws[1..]);
      cs := [c] + rest;
      RunCons(s, c, rest);
      Collapse(s.ss, x, s1.ss[x], Run(s1, rest).value.ss[x]);
    }
  }

  function HwBytes(c: Copy): nat { if c.fromHw then c.len else 0 }

  function Counted(s: State, x: nat): State
    requires x < |s.ss| && s.ss[x].copies != []
  {
    var o, c := s.ss[x], s.ss[x].copies[0];
    With(s, x, o.(copies := o.copies[1..], f := o.f + HwBytes(c), hwCounted := o.hwCounted + HwBytes(c)))
    .(gf := s.gf + HwBytes(c), serv := Writing(x, c.len, c.fromHw, 0))
  }

  function Ended(s: State, x: nat): State
    requires x < |s.ss| && s.serv.Writing?
  {
    var o, len := s.ss[x], s.serv.len;
    With(s, x, o.(lwip := o.lwip + len, bp := false, d := o.d + len)).(gd := s.gd + len, serv := ServIdle)
  }

  // The copy is taken and, if the hardware fired it, counted.
  lemma CountIsSteps(s: State, x: nat) returns (cs: seq<Action>)
    requires x < |s.ss| && s.serv.ServIdle? && s.ss[x].copies != []
    requires s.ss[x].copies[0].fromHw ==> !s.reportOnly
    ensures Run(s, cs) == Some(Counted(s, x))
  {
    if s.ss[x].copies[0].fromHw {
      cs := [Serve(x, TakeCopy), Serve(x, AddHwF), Serve(x, AddHwGf)];
      var s1 := Apply(Serve(x, TakeCopy), s);
      var s2 := Apply(Serve(x, AddHwF), s1);
      RunThree(s, Serve(x, TakeCopy), Serve(x, AddHwF), Serve(x, AddHwGf));
      Collapse(s.ss, x, s1.ss[x], s2.ss[x]);
      Collapse(s.ss, x, s2.ss[x], s2.ss[x]);
    } else {
      cs := [Serve(x, TakeCopy)];
      RunOne(s, Serve(x, TakeCopy));
    }
  }

  lemma EndIsSteps(s: State, x: nat)
    requires x < |s.ss| && s.serv.CountD? && s.serv.x == x
    ensures var o, v := s.ss[x], s.serv;
            Run(s, [Serve(x, AddD), Serve(x, AddGd)])
            == Some(With(s, x, o.(d := o.d + v.len)).(gd := s.gd + v.len, serv := ServIdle))
  {
    RunTwo(s, Serve(x, AddD), Serve(x, AddGd));
    var s1 := Apply(Serve(x, AddD), s);
    Collapse(s.ss, x, s1.ss[x], s1.ss[x]);
  }

  // The session after lwipDummyWrite of its first copy, counters as the method leaves them.
  function Replayed(o: Session): Session
    requires o.copies != []
  {
    var c := o.copies[0];
    o.(copies := o.copies[1..], f := o.f + HwBytes(c), hwCounted := o.hwCounted + HwBytes(c),
       lwip := o.lwip + c.len, bp := false, d := o.d + c.len)
  }

  // A replay that ends well is a run of the service thread, whatever lwIP took at a time.
  lemma ReplayIsSteps(s: State, x: nat, ws: seq<TcpSession.Wrote>) returns (cs: seq<Action>)
    requires x < |s.ss| && s.serv.ServIdle? && s.ss[x].copies != []
    requires s.ss[x].copies[0].fromHw ==> !s.reportOnly
    requires TcpSession.Honest(ws, s.ss[x].copies[0].len)
    requires TcpSession.WriteLoop(true, ws, s.ss[x].copies[0].len).Written?
    ensures var c := s.ss[x].copies[0];
            Run(s, cs) == Some(With(s, x, Replayed(s.ss[x])).(gf := s.gf + HwBytes(c), gd := s.gd + c.len))
  {
    var first := CountIsSteps(s, x);
    var rest := WriteAndEnd(Counted(s, x), x, ws);
    RunConcat(s, first, rest);
    cs := first + rest;
    CountedThenEnded(s, x);
  }

  lemma CountedThenEnded(s: State, x: nat)
    requires x < |s.ss| && s.serv.ServIdle? && s.ss[x].copies != []
    ensures var c := s.ss[x].copies[0];
            Ended(Counted(s, x), x) == With(s, x, Replayed(s.ss[x])).(gf := s.gf + HwBytes(c), gd := s.gd + c.len)
  {
    Collapse(s.ss, x, Counted(s, x).ss[x], Replayed(s.ss[x]));
  }

  lemma WriteAndEnd(s: State, x: nat, ws: seq<TcpSession.Wrote>) returns (cs: seq<Action>)
    requires x < |s.ss| && s.serv.Writing? && s.serv.x == x && s.serv.sent == 0
    requires TcpSession.Honest(ws, s.serv.len) && TcpSession.WriteLoop(true, ws, s.serv.len).Written?
    ensures Run(s, cs) == Some(Ended(s, x))
  {
    var writes := WritesAreSteps(s, x, ws);
    var s1 := Run(s, writes).value;
    EndIsSteps(s1, x);
    RunConcat(s, writes, [Serve(x, AddD), Serve(x, AddGd)]);
    cs := writes + [Serve(x, AddD), Serve(x, AddGd)];
    Collapse(s.ss, x, s1.ss[x], Run(s, cs).value.ss[x]);
  }

  // ----- sendStackEthFrame -----

  // The fields of the session that the frames of lwIP touch.
  predicate Matches(tx: TcpSession.Tx, o: Session) {
    tx.f == o.f && tx.d == o.d && tx.t == o.t && tx.a == o.a && tx.localSeq == Low32(o.t)
  }

  // A SYN leaves the fields of a session that no step has touched yet.
  lemma SynIsFresh(tx: TcpSession.Tx, established: bool, active: bool, pkt: TcpSession.Packet, pos: nat, shift: nat)
    requires pkt.syn && pkt.seqno == pos % 0x1_0000_0000 && shift <= 14
    ensures var base := (pos + 1) % 0x1_0000_0000;
            IsFresh(FreshSession(base, shift))
            && Matches(TcpSession.StackFrame(tx, established, active, pkt).0, FreshSession(base, shift))
  {
    TcpSession.SynStarts(tx, established, active, pkt, pos);
  }

  lemma {:induction false} ReachedGrows(next: nat, gs: seq<TcpSession.LwipSegment>)
    ensures next <= TcpSession.Reached(next, gs)
    decreases |gs|
  {
    if gs != [] {
      ReachedGrows(Max(next, gs[0].pos + gs[0].len), gs[1..]);
    }
  }

  lemma {:induction false} SegmentsRun(s: State, x: nat, gs: seq<TcpSession.LwipSegment>) returns (cs: seq<Action>)
    requires x < |s.ss| && TcpSession.InOrder(s.ss[x].t, gs) && TcpSession.Reached(s.ss[x].t, gs) <= s.ss[x].lwip
    ensures forall c :: c in cs ==> c.World? && c.wop.Transmit?
    ensures Run(s, cs) == Some(With(s, x, s.ss[x].(t := TcpSession.Reached(s.ss[x].t, gs))))
    decreases |gs|
  {
    var o := s.ss[x];
    cs := [];
    if gs != [] && gs[0].pos == o.t {
      ReachedGrows(o.t + gs[0].len, gs[1..]);
      var c := World(x, Transmit(gs[0].len));
      var s1 := Apply(c, s);
      var rest := SegmentsRun(s1, x, gs[1..]);
      cs := [c] + rest;
      RunCons(s, c, rest);
      Collapse(s.ss, x, s1.ss[x], Run(s1, rest).value.ss[x]);
    } else if gs != [] {
      cs := SegmentsRun(s, x, gs[1..]);
    } else {
      assert s.ss[x := o] == s.ss;
    }
  }

  // What sendStackEthFrame makes of lwIP's segments is a run of transmit steps, one for each
  // new segment and none for a retransmission.
  lemma FramesAreTransmits(s: State, x: nat, tx: TcpSession.Tx, gs: seq<TcpSession.LwipSegment>) returns (cs: seq<Action>)
    requires x < |s.ss| && Matches(tx, s.ss[x])
    requires TcpSession.InOrder(s.ss[x].t, gs) && TcpSession.Reached(s.ss[x].t, gs) <= s.ss[x].lwip
    ensures forall c :: c in cs ==> c.World? && c.wop.Transmit?
    ensures Run(s, cs).Some? && Run(s, cs).value == With(s, x, s.ss[x].(t := TcpSession.StackRun(tx, gs).0.t))
    ensures Matches(TcpSession.StackRun(tx, gs).0, Run(s, cs).value.ss[x])
  {
    TcpSession.StackRunIsExact(tx, gs);
    cs := SegmentsRun(s, x, gs);
  }

  // ----- updateRx -----

  // The stores of updateRx, on the next segment of the peer.
  lemma StoresAreSteps(s: State, x: nat)
    requires x < |s.ss| && s.rx.RxIdle? && s.ss[x].taken < |s.ss[x].segs|
    ensures var o, seg := s.ss[x], s.ss[x].segs[s.ss[x].taken];
            Run(s, [Receive(x, TakeSegment), Receive(x, PutWnd), Receive(x, PutAck)])
            == Some(With(s, x, o.(taken := o.taken + 1, ack32 := Low32(seg.ack),
                                  wnd := seg.wnd16 * Pow2(o.shift) % TWO32,
                                  a := Seq32To64(o.a, o.ack32, Low32(seg.ack), 0)))
                    .(rx := Gate(x, o.taken)))
  {
    var s1 := Apply(Receive(x, TakeSegment), s);
    var s2 := Apply(Receive(x, PutWnd), s1);
    RunThree(s, Receive(x, TakeSegment), Receive(x, PutWnd), Receive(x, PutAck));
    var s3 := Apply(Receive(x, PutAck), s2);
    Collapse(s.ss, x, s1.ss[x], s2.ss[x]);
    Collapse(s.ss, x, s2.ss[x], s3.ss[x]);
  }

  // lwIP moves its counter to v, and the receive thread makes its step.
  lemma LoadAndStep(s: State, x: nat, v: nat, op: RxOp) returns (cs: seq<Action>)
    requires x < |s.ss| && s.ss[x].t <= v <= s.ss[x].lwip
    requires RxIdleOrOn(s.rx, x) && RxCan(op, s.rx, s.ss[x].(t := v))
    ensures var o := s.ss[x].(t := v);
            Run(s, cs) == Some(With(s, x, RxWrites(op, s.rx, o)).(rx := RxNext(op, x, s.rx, o)))
  {
    cs := [World(x, Transmit(v - s.ss[x].t)), Receive(x, op)];
    var s1 := Apply(World(x, Transmit(v - s.ss[x].t)), s);
    assert s1 == With(s, x, s.ss[x].(t := v));
    RunTwo(s, World(x, Transmit(v - s.ss[x].t)), Receive(x, op));
    assert s1.ss[x := RxWrites(op, s.rx, s1.ss[x])] == s.ss[x := RxWrites(op, s.rx, s1.ss[x])];
  }

  // The greatest number handed to lwIP after the inserted ones.
  function HandedAfter(h: nat, ns: seq<nat>): nat
    decreases |ns|
  {
    if ns == [] then h else HandedAfter(Max(h, ns[0]), ns[1..])
  }

  // What the gate loop leaves in the step system.
  predicate GateDone(s: State, x: nat, s': State, g: RxGate.Gate)
    requires x < |s.ss| && s.rx.Gate?
  {
    && x < |s'.ss|
    && s' == With(s, x, s.ss[x].(t := s'.ss[x].t, lastInserted := g.last,
                                 handed := HandedAfter(s.ss[x].handed, g.inserted))).(rx := s'.rx)
    && (g.open <==> s'.rx == Deliver(x, s.rx.k))
  }

  lemma GateDoneAfter(s: State, x: nat, s1: State, s': State, ns: seq<nat>, g: RxGate.Gate)
    requires x < |s.ss| == |s1.ss| && s.rx.Gate? && s1.rx == s.rx
    requires s1 == With(s, x, s.ss[x].(t := s1.ss[x].t, lastInserted := s1.ss[x].lastInserted,
                                       handed := HandedAfter(s.ss[x].handed, ns)))
    requires |ns| <= 1 && GateDone(s1, x, s', g)
    ensures GateDone(s, x, s', TcpSession.Before(ns, g))
  {
    if ns != [] {
      assert (ns + g.inserted)[1..] == g.inserted;
    } else {
      assert ns + g.inserted == g.inserted;
    }
    assert s'.ss == s.ss[x := s'.ss[x]];
  }

  // One round of the loop that does not find the gate open; over is whether it went full
  // circle on the values given.
  lemma RoundIsSteps(s: State, x: nat, ts: seq<nat>) returns (cs: seq<Action>, over: bool)
    requires x < |s.ss| && s.rx.Gate? && s.rx.x == x && s.rx.k < |s.ss[x].segs|
    requires RxGate.Rising(s.ss[x].t, ts) && forall i :: 0 <= i < |ts| ==> ts[i] <= s.ss[x].lwip
    requires ts != [] && ts[0] < s.ss[x].a
    ensures var inserting := 2 <= |ts| && s.ss[x].lastInserted < ts[1];
            && over == (|ts| >= if inserting then 3 else 2)
            && Run(s, cs).Some?
            && (!over ==> Run(s, cs).value == With(s, x, s.ss[x].(t := ts[|ts| - 1])).(rx := Run(s, cs).value.rx)
                          && !Run(s, cs).value.rx.Deliver?)
            && (over && !inserting ==> Run(s, cs).value == With(s, x, s.ss[x].(t := ts[1])))
            && (over && inserting ==>
                  Run(s, cs).value == With(s, x, s.ss[x].(t := ts[2], lastInserted := ts[2],
                                                          handed := Max(s.ss[x].handed, ts[2]))))
  {
    cs := LoadAndStep(s, x, ts[0], TestGate);
    var s1 := Run(s, cs).value;
    over := false;
    if 2 <= |ts| {
      RxGate.RisingTail(s.ss[x].t, ts, 2);
      var c2 := LoadAndStep(s1, x, ts[1], TestInsert);
      var s2 := Run(s1, c2).value;
      RunConcat(s, cs, c2);
      cs := cs + c2;
      assert s2.ss == s.ss[x := s.ss[x].(t := ts[1])];
      if ts[1] <= s.ss[x].lastInserted {
        over := true;
      } else if 3 <= |ts| {
        RxGate.RisingTail(s.ss[x].t, ts, 3);
        var c3 := LoadAndStep(s2, x, ts[2], InsertAck);
        RunConcat(s, cs, c3);
        cs := cs + c3;
        over := true;
        assert Run(s, cs).value.ss
               == s.ss[x := s.ss[x].(t := ts[2], lastInserted := ts[2], handed := Max(s.ss[x].handed, ts[2]))];
      }
    }
  }

  // The loop sees what some run shows it: for all values that a rising counter takes, lwIP's
  // transmissions and the receive thread's steps interleave to the loop's outcome.
  lemma {:induction false} GateIsSteps(s: State, x: nat, ts: seq<nat>) returns (cs: seq<Action>)
    requires x < |s.ss| && s.rx.Gate? && s.rx.x == x && s.rx.k < |s.ss[x].segs|
    requires RxGate.Rising(s.ss[x].t, ts) && forall i :: 0 <= i < |ts| ==> ts[i] <= s.ss[x].lwip
    ensures Run(s, cs).Some?
    ensures GateDone(s, x, Run(s, cs).value, RxGate.GateLoop(true, s.ss[x].a, s.ss[x].lastInserted, ts))
    decreases |ts|
  {
    var o := s.ss[x];
    if ts == [] {
      cs := [];
      assert s.ss[x := o] == s.ss;
    } else if o.a <= ts[0] {
      cs := LoadAndStep(s, x, ts[0], TestGate);
    } else {
      var over: bool;
      cs, over := RoundIsSteps(s, x, ts);
      if over {
        var s1 := Run(s, cs).value;
        var used := if o.lastInserted < ts[1] then 3 else 2;
        RxGate.RisingTail(o.t, ts, used);
        var rest := GateIsSteps(s1, x, ts[used..]);
        RunConcat(s, cs, rest);
        GateDoneAfter(s, x, s1, Run(s1, rest).value, if used == 3 then [ts[2]] else [],
                      RxGate.GateLoop(true, o.a, s1.ss[x].lastInserted, ts[used..]));
        cs := cs + rest;
      }
    }
  }

  // Once the gate is open the segment is handed on, and the first one, the SYN-ACK, gives the
  // session its scale.
  lemma DeliverIsStep(s: State, x: nat)
    requires x < |s.ss| && s.rx.Deliver? && s.rx.x == x && s.rx.k < |s.ss[x].segs|
    ensures var o, ack := s.ss[x], s.ss[x].segs[s.rx.k].ack;
            Run(s, [Receive(x, PushToLwip)])
            == Some(With(s, x, o.(handed := if ack <= o.handed then o.handed else ack,
                                  shift := if s.rx.k > 0 then o.shift else o.peerShift)).(rx := RxIdle))
  {
    RunOne(s, Receive(x, PushToLwip));
  }
}
