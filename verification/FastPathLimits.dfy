// Where two expectations about the fast path fail, with runs that show it, and the exact
// condition for the in-flight limit.
module FastPathLimits {
  import opened Arith
  import opened Options
  import opened SeqNum
  import opened FastPath
  import opened FastPathInvariant
  import opened FastPathTheorems

  // ----- runs of one session and one sender -----

  function One(o: Session, v: Sender, w: Serv, rx: Rx, gf: nat, gd: nat, gdFirst: bool): State {
    State([o], [v], w, rx, gf, gd, false, gdFirst)
  }

  // A set of states that no step leaves. The runs below are built inside an arbitrary one.
  ghost predicate Closed(R: State -> bool) {
    forall s, c {:trigger Apply(c, s)} :: R(s) && Enabled(c, s) ==> R(Apply(c, s))
  }

  ghost predicate CanReach(s: State, s': State) {
    exists cs :: Run(s, cs) == Some(s')
  }

  lemma ReachableIsClosed(s0: State)
    ensures Closed(s => CanReach(s0, s)) && CanReach(s0, s0)
  {
    assert Run(s0, []) == Some(s0);
    forall s, c | CanReach(s0, s) && Enabled(c, s) ensures CanReach(s0, Apply(c, s)) {
      var cs :| Run(s0, cs) == Some(s);
      RunAppend(s0, cs, c);
    }
  }

  lemma ReachSend(R: State -> bool, op: SenderOp, o: Session, v: Sender, w: Serv, rx: Rx, gf: nat, gd: nat, b: bool)
    requires Closed(R) && R(One(o, v, w, rx, gf, gd, b)) && SenderCan(op, v, b) && SenderOn(v, 0)
    ensures R(One(SenderWrites(op, v, o), SenderNext(op, 0, v, o, gf, gd), w, rx,
                             SenderGf(op, v, gf), gd, b))
  {
    assert Apply(Send(0, 0, op), One(o, v, w, rx, gf, gd, b))
           == One(SenderWrites(op, v, o), SenderNext(op, 0, v, o, gf, gd), w, rx, SenderGf(op, v, gf), gd, b);
  }

  lemma ReachServe(R: State -> bool, op: ServOp, o: Session, v: Sender, w: Serv, rx: Rx, gf: nat, gd: nat, b: bool)
    requires Closed(R) && R(One(o, v, w, rx, gf, gd, b)) && ServCan(op, w, o) && ServOn(w, 0)
    ensures R(One(ServWrites(op, w, o), v, ServNext(op, 0, w, o, false), rx,
                             if op.AddHwGf? then gf + w.len else gf,
                             if op.AddGd? then gd + w.len else gd, b))
  {
    assert Apply(Serve(0, op), One(o, v, w, rx, gf, gd, b))
           == One(ServWrites(op, w, o), v, ServNext(op, 0, w, o, false), rx,
                      if op.AddHwGf? then gf + w.len else gf, if op.AddGd? then gd + w.len else gd, b);
  }

  lemma ReachReceive(R: State -> bool, op: RxOp, o: Session, v: Sender, w: Serv, rx: Rx, gf: nat, gd: nat, b: bool)
    requires Closed(R) && R(One(o, v, w, rx, gf, gd, b)) && RxCan(op, rx, o) && RxIdleOrOn(rx, 0)
    ensures R(One(RxWrites(op, rx, o), v, w, RxNext(op, 0, rx, o), gf, gd, b))
  {
    assert Apply(Receive(0, op), One(o, v, w, rx, gf, gd, b))
           == One(RxWrites(op, rx, o), v, w, RxNext(op, 0, rx, o), gf, gd, b);
  }

  lemma ReachWorld(R: State -> bool, op: WorldOp, o: Session, v: Sender, w: Serv, rx: Rx, gf: nat, gd: nat, b: bool)
    requires Closed(R) && R(One(o, v, w, rx, gf, gd, b)) && WorldCan(op, o)
    ensures R(One(WorldWrites(op, o, false), v, w, rx, gf, gd, b))
  {
    assert Apply(World(0, op), One(o, v, w, rx, gf, gd, b))
           == One(WorldWrites(op, o, false), v, w, rx, gf, gd, b);
  }

  function Start(gdFirst: bool): State {
    One(FreshSession(1, 14), Idle, ServIdle, RxIdle, 0, 0, gdFirst)
  }

  // The receive thread processes segment number taken, which acknowledges nothing new.
  lemma ReachSegment(R: State -> bool, o: Session, v: Sender, gf: nat, gd: nat, b: bool)
    requires Closed(R) && R(One(o, v, ServIdle, RxIdle, gf, gd, b))
    requires o.taken < |o.segs| && o.segs[o.taken].ack == o.a == 1 && o.ack32 <= 1 <= o.t
    ensures R(One(o.(taken := o.taken + 1, ack32 := 1,
                                wnd := o.segs[o.taken].wnd16 * Pow2(o.shift) % TWO32,
                                shift := if o.taken == 0 then o.peerShift else o.shift,
                                handed := Max(o.handed, 1)),
                             v, ServIdle, RxIdle, gf, gd, b))
  {
    var k := o.taken;
    ReachReceive(R, TakeSegment, o, v, ServIdle, RxIdle, gf, gd, b);
    var o1 := o.(taken := k + 1, ack32 := 1);
    ReachReceive(R, PutWnd, o1, v, ServIdle, StoreWnd(0, k, o.ack32), gf, gd, b);
    var o2 := o1.(wnd := o.segs[k].wnd16 * Pow2(o.shift) % TWO32);
    ReachReceive(R, PutAck, o2, v, ServIdle, StoreAck(0, k, o.ack32), gf, gd, b);
    assert RxWrites(PutAck, StoreAck(0, k, o.ack32), o2) == o2;
    ReachReceive(R, TestGate, o2, v, ServIdle, Gate(0, k), gf, gd, b);
    ReachReceive(R, PushToLwip, o2, v, ServIdle, Deliver(0, k), gf, gd, b);
  }

  const BIG_WINDOW := 0xFFFF * 0x4000

  // The session once the peer has answered the SYN and offered its largest window.
  function Connected(): Session {
    FreshSession(1, 14).(segs := [Segment(1, 0), Segment(1, 0xFFFF)], taken := 2, ack32 := 1,
                         wnd := BIG_WINDOW, shift := 14, handed := 1)
  }

  lemma ReachConnected(R: State -> bool, gdFirst: bool)
    requires Closed(R) && R(Start(gdFirst))
    ensures R(One(Connected(), Idle, ServIdle, RxIdle, 0, 0, gdFirst))
  {
    var o := FreshSession(1, 14);
    assert [] + [Segment(1, 0)] == [Segment(1, 0)];
    assert [Segment(1, 0)] + [Segment(1, 0xFFFF)] == [Segment(1, 0), Segment(1, 0xFFFF)];
    ReachWorld(R, PeerSend(Segment(1, 0)), o, Idle, ServIdle, RxIdle, 0, 0, gdFirst);
    var o1 := o.(segs := [Segment(1, 0)]);
    ReachWorld(R, PeerSend(Segment(1, 0xFFFF)), o1, Idle, ServIdle, RxIdle, 0, 0, gdFirst);
    var o2 := o.(segs := [Segment(1, 0), Segment(1, 0xFFFF)]);
    ReachSegment(R, o2, Idle, 0, 0, gdFirst);
    var o3 := o2.(taken := 1, ack32 := 1, wnd := 0, shift := 14, handed := 1);
    ReachSegment(R, o3, Idle, 0, 0, gdFirst);
    Pow2OfMaxShift();
  }

  // ----- the service thread replays one hardware packet -----

  function Fired(o: Session, len: nat): Session {
    o.(f := o.f + len, d := o.d + len, lwip := o.lwip + len, wire := o.wire + len,
       hwFired := o.hwFired + len, hwCounted := o.hwCounted + len)
  }

  lemma ReachHwPacket(R: State -> bool, o: Session, len: nat, v: Sender, rx: Rx, gf: nat, gd: nat, b: bool)
    requires Closed(R) && R(One(o, v, ServIdle, rx, gf, gd, b))
    requires o.copies == [] && !o.bp && 0 < len <= MAX_PAYLOAD_SIZE
    ensures R(One(Fired(o, len), v, ServIdle, rx, gf + len, gd + len, b))
  {
    assert [] + [Copy(len, true)] == [Copy(len, true)];
    ReachWorld(R, HwFire(len), o, v, ServIdle, rx, gf, gd, b);
    var o1 := o.(wire := o.wire + len, hwFired := o.hwFired + len);
    ReachServe(R, TakeCopy, o1.(copies := [Copy(len, true)]), v, ServIdle, rx, gf, gd, b);
    assert [Copy(len, true)][1..] == [];
    ReachServe(R, AddHwF, o1, v, CountHwF(0, len), rx, gf, gd, b);
    var o2 := o1.(f := o.f + len, hwCounted := o.hwCounted + len);
    ReachServe(R, AddHwGf, o2, v, CountHwGf(0, len), rx, gf, gd, b);
    ReachServe(R, Write(len), o2, v, Writing(0, len, true, 0), rx, gf + len, gd, b);
    var o3 := o2.(lwip := o.lwip + len);
    ReachServe(R, AddD, o3, v, CountD(0, len, true), rx, gf + len, gd, b);
    ReachServe(R, AddGd, o3.(d := o.d + len), v, CountGd(0, len, true), rx, gf + len, gd, b);
  }

  // ----- inserted acknowledgements can pass the peer -----

  function Overtaken(): Session {
    Fired(Fired(Connected(), 100), 50).(
      segs := Connected().segs + [Segment(101, 0xFFFF)], taken := 3, ack32 := 101, a := 101,
      t := 151, lastInserted := 151, handed := 151)
  }

  lemma ReachOvertaken(R: State -> bool)
    requires Closed(R) && R(Start(true))
    ensures R(One(Overtaken(), Idle, ServIdle, Gate(0, 2), 150, 150, true))
  {
    ReachConnected(R, true);
    ReachHwPacket(R, Connected(), 100, Idle, RxIdle, 0, 0, true);
    ReachHwPacket(R, Fired(Connected(), 100), 50, Idle, RxIdle, 100, 100, true);
    var o1 := Fired(Fired(Connected(), 100), 50);
    var seg := Segment(101, 0xFFFF);
    ReachWorld(R, PeerSend(seg), o1, Idle, ServIdle, RxIdle, 150, 150, true);
    var o2 := o1.(segs := o1.segs + [seg]);
    ReachReceive(R, TakeSegment, o2, Idle, ServIdle, RxIdle, 150, 150, true);
    var o3 := o2.(taken := 3, ack32 := 101);
    ReachReceive(R, PutWnd, o3, Idle, ServIdle, StoreWnd(0, 2, 1), 150, 150, true);
    Pow2OfMaxShift();
    ReachReceive(R, PutAck, o3, Idle, ServIdle, StoreAck(0, 2, 1), 150, 150, true);
    var o4 := o3.(a := 101);
    ReachReceive(R, TestGate, o4, Idle, ServIdle, Gate(0, 2), 150, 150, true);
    ReachReceive(R, TestInsert, o4, Idle, ServIdle, Body(0, 2), 150, 150, true);
    ReachWorld(R, Transmit(150), o4, Idle, ServIdle, Insert(0, 2, 1), 150, 150, true);
    ReachReceive(R, InsertAck, o4.(t := 151), Idle, ServIdle, Insert(0, 2, 1), 150, 150, true);
  }

  // The wait loop loads T a third time when it inserts: bytes that lwIP transmits meanwhile
  // are acknowledged to it although the peer has not acknowledged them. Here the peer is at
  // 101 and lwIP is told 151.
  lemma InsertedAckCanPassPeer()
    ensures exists s0: State, cs: seq<Action>, s: State {:trigger Reached(s0, cs, s)} ::
              Reached(s0, cs, s) && |s.ss| == 1 && s.ss[0].lastInserted == 151 && s.ss[0].a == 101
  {
    var s0 := Start(true);
    ReachableIsClosed(s0);
    ReachOvertaken(s => CanReach(s0, s));
    var s := One(Overtaken(), Idle, ServIdle, Gate(0, 2), 150, 150, true);
    var cs :| Run(s0, cs) == Some(s);
    assert Reached(s0, cs, s);
  }

  predicate NoReceive(cs: seq<Action>) {
    forall j :: 0 <= j < |cs| ==> !cs[j].Receive?
  }

  // What lwIP transmits on session x in a run.
  function Transmitted(cs: seq<Action>, x: nat): nat
    decreases |cs|
  {
    if cs == [] then 0
    else (if cs[0].World? && cs[0].x == x && cs[0].wop.Transmit? then cs[0].wop.n else 0) + Transmitted(cs[1..], x)
  }

  // The receive thread's fields stand still while it does nothing; T follows lwIP.
  lemma {:induction false} RxStandsStill(s: State, cs: seq<Action>, x: nat)
    requires Run(s, cs).Some? && NoReceive(cs) && x < |s.ss|
    ensures var r := Run(s, cs).value;
            && |r.ss| == |s.ss| && r.rx == s.rx && r.ss[x].a == s.ss[x].a
            && r.ss[x].lastInserted == s.ss[x].lastInserted && r.ss[x].t == s.ss[x].t + Transmitted(cs, x)
    decreases |cs|
  {
    if cs != [] {
      OneStandsStill(s, cs[0], x);
      RxStandsStill(Apply(cs[0], s), cs[1..], x);
    }
  }

  lemma OneStandsStill(s: State, c: Action, x: nat)
    requires Enabled(c, s) && !c.Receive? && x < |s.ss|
    ensures var r := Apply(c, s);
            && |r.ss| == |s.ss| && r.rx == s.rx && r.ss[x].a == s.ss[x].a
            && r.ss[x].lastInserted == s.ss[x].lastInserted
            && r.ss[x].t == s.ss[x].t + if c.World? && c.x == x && c.wop.Transmit? then c.wop.n else 0
  {
  }

  // One iteration of the wait loop in which other threads, the FPGA, lwIP and the peer take
  // any steps: the number inserted is one that the peer has passed if and only if lwIP
  // transmitted, since the gate's load of T, less than the gate found missing.
  lemma InsertedIsBelowPeer(s: State, cs1: seq<Action>, s1: State, cs2: seq<Action>, s2: State, x: nat)
    requires x < |s.ss| && Enabled(Receive(x, TestGate), s) && NoReceive(cs1) && NoReceive(cs2)
    requires Run(Apply(Receive(x, TestGate), s), cs1) == Some(s1) && Enabled(Receive(x, TestInsert), s1)
    requires Run(Apply(Receive(x, TestInsert), s1), cs2) == Some(s2) && Enabled(Receive(x, InsertAck), s2)
    ensures var r := Apply(Receive(x, InsertAck), s2).ss[x];
            && r.lastInserted == s.ss[x].t + Transmitted(cs1, x) + Transmitted(cs2, x)
            && r.a == s.ss[x].a
            && (r.lastInserted < r.a <==> Transmitted(cs1, x) + Transmitted(cs2, x) < s.ss[x].a - s.ss[x].t)
  {
    RxStandsStill(Apply(Receive(x, TestGate), s), cs1, x);
    RxStandsStill(Apply(Receive(x, TestInsert), s1), cs2, x);
  }

  // ----- the in-flight limit and the order of its two loads -----

  // m accepted payloads waiting in the FPGA, h hardware packets replayed.
  function Loaded(m: nat, h: nat): Session {
    var hw := MAX_PAYLOAD_SIZE * h;
    Connected().(f := 1 + MAX_PAYLOAD_SIZE * (m + h), d := 1 + hw, lwip := 1 + hw, wire := 1 + hw,
                 hwFired := hw, hwCounted := hw, txq := seq(m, _ => MAX_PAYLOAD_SIZE))
  }

  function LoadedState(m: nat, h: nat, v: Sender): State {
    One(Loaded(m, h), v, ServIdle, RxIdle,
        MAX_PAYLOAD_SIZE * (m + h), MAX_PAYLOAD_SIZE * h, false)
  }

  lemma {:induction false} ReachHwPackets(R: State -> bool, m: nat, h: nat, k: nat, v: Sender)
    requires Closed(R) && R(LoadedState(m, h, v))
    ensures R(LoadedState(m, h + k, v))
    decreases k
  {
    if k > 0 {
      ReachHwPacket(R, Loaded(m, h), MAX_PAYLOAD_SIZE, v, RxIdle,
                    MAX_PAYLOAD_SIZE * (m + h), MAX_PAYLOAD_SIZE * h, false);
      assert Fired(Loaded(m, h), MAX_PAYLOAD_SIZE) == Loaded(m, h + 1);
      ReachHwPackets(R, m, h + 1, k - 1, v);
    }
  }

  // One more payload is accepted while k hardware packets are replayed between the two loads.
  lemma ReachStaleAccept(R: State -> bool, m: nat, h: nat, k: nat)
    requires Closed(R) && R(LoadedState(m, h, Idle)) && k <= m <= k + 6
    requires MAX_PAYLOAD_SIZE * (m + h + 1) + WND_MARGIN <= BIG_WINDOW
    ensures R(LoadedState(m + 1, h + k, Idle))
  {
    var p, o, gf, gd := MAX_PAYLOAD_SIZE, Loaded(m, h), MAX_PAYLOAD_SIZE * (m + h), MAX_PAYLOAD_SIZE * h;
    ReachSend(R, LoadF(p), o, Idle, ServIdle, RxIdle, gf, gd, false);
    ReachSend(R, LoadOther, o, HaveF(0, p, o.f), ServIdle, RxIdle, gf, gd, false);
    ReachSend(R, LoadW, o, HaveFA(0, p, o.f, 1), ServIdle, RxIdle, gf, gd, false);
    ReachSend(R, CheckWindow, o, HaveW(0, p, o.f, 1, BIG_WINDOW), ServIdle, RxIdle, gf, gd, false);
    ReachSend(R, LoadGf, o, WindowOk(0, p, o.f), ServIdle, RxIdle, gf, gd, false);
    var v := HaveGf(0, p, o.f, gf);
    ReachHwPackets(R, m, h, k, v);
    var o1, gf1, gd1 := Loaded(m, h + k), MAX_PAYLOAD_SIZE * (m + h + k), MAX_PAYLOAD_SIZE * (h + k);
    ModUnique(gf - gd1, TWO64, 0, MAX_PAYLOAD_SIZE * (m - k));
    ReachSend(R, LoadGd, o1, v, ServIdle, RxIdle, gf1, gd1, false);
    ReachSend(R, AddF, o1, Passed(0, p, o.f), ServIdle, RxIdle, gf1, gd1, false);
    var o2 := o1.(f := o1.f + p);
    ReachSend(R, AddGf, o2, CountedF(0, p), ServIdle, RxIdle, gf1, gd1, false);
    ReachSend(R, FastSend, o2, Accepted(0, p), ServIdle, RxIdle, gf1 + p, gd1, false);
    assert o2.(txq := o2.txq + [p]) == Loaded(m + 1, h + k);
  }

  // The limit for every run of any number of sessions and of sending threads.
  ghost predicate LimitHolds(gdFirst: bool) {
    forall s0, cs, s :: Reached(s0, cs, s) && s0.gdFirst == gdFirst && s.gf < TWO64 ==>
      s.gf - s.gd <= FPGA_IN_FLIGHT_LIMIT + MAX_PAYLOAD_SIZE * |s0.senders| + MAX_PAYLOAD_SIZE
  }

  // The hardware packets that m payloads have slipped in behind.
  function HwUpTo(m: nat): nat {
    if m == 0 then 0 else HwUpTo(m - 1) + if m <= 7 then 0 else m - 7
  }

  lemma {:induction false} ReachLoaded(R: State -> bool, m: nat)
    requires Closed(R) && R(Start(false)) && MAX_PAYLOAD_SIZE * (m + HwUpTo(m)) + WND_MARGIN <= BIG_WINDOW
    ensures R(LoadedState(m, HwUpTo(m), Idle))
    decreases m
  {
    if m == 0 {
      ReachConnected(R, false);
      assert Loaded(0, 0) == Connected();
    } else {
      ReachLoaded(R, m - 1);
      ReachStaleAccept(R, m - 1, HwUpTo(m - 1), if m <= 7 then 0 else m - 7);
    }
  }

  // Loaded the other way round, what waits in the FPGA is limited by the send window alone:
  // one sender gets m payloads accepted with none of them sent, for every m that fits.
  lemma LateDummyLoadIsUnlimited(m: nat) returns (cs: seq<Action>, s: State)
    requires MAX_PAYLOAD_SIZE * (m + HwUpTo(m)) + WND_MARGIN <= BIG_WINDOW
    ensures Run(Start(false), cs) == Some(s) && s.gf - s.gd == MAX_PAYLOAD_SIZE * m && s.gf < TWO64
    ensures |s.ss| == 1 && s.ss[0].txq == seq(m, _ => MAX_PAYLOAD_SIZE)
  {
    ReachableIsClosed(Start(false));
    ReachLoaded(s => CanReach(Start(false), s), m);
    s := LoadedState(m, HwUpTo(m), Idle);
    assert CanReach(Start(false), s);
    cs :| Run(Start(false), cs) == Some(s);
  }

  // The language leaves the order of the two loads open. On all runs the FPGA never holds more
  // than the limit, one payload per thread and one hardware packet, if and only if the dummy
  // counter is loaded first.
  lemma LimitNeedsDummyFirst(gdFirst: bool)
    ensures LimitHolds(gdFirst) <==> gdFirst
  {
    if gdFirst {
      forall s0, cs, s | Reached(s0, cs, s) && s0.gdFirst && s.gf < TWO64
        ensures s.gf - s.gd <= FPGA_IN_FLIGHT_LIMIT + MAX_PAYLOAD_SIZE * |s0.senders| + MAX_PAYLOAD_SIZE
      {
        InFlightIsBounded(s0, cs, s);
      }
    } else {
      assert HwUpTo(9) == 3;
      var cs, s := LateDummyLoadIsUnlimited(9);
      assert Reached(Start(false), cs, s);
      assert !LimitHolds(false);
    }
  }
}
