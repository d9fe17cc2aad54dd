// The TCP fast path shared by the FPGA and lwIP, as a step system. One step is one shared
// memory access of one thread, or one act of the FPGA, of lwIP or of the peer.
module FastPath {
  import opened Arith
  import opened Options
  import opened SeqNum

  const MAX_PAYLOAD_SIZE := 1360
  const WND_MARGIN := 2048
  const FPGA_IN_FLIGHT_LIMIT := 8192
  const MAX_SHIFT := 14

  // A packet copy in the feedback channel.
  datatype Copy = Copy(len: nat, fromHw: bool)

  // A segment of the peer; ack is the full sequence position, of which the wire carries 32 bits.
  datatype Segment = Segment(ack: nat, wnd16: nat)

  datatype Session = Session(
    base: nat,             // first sequence position after the SYN
    f: nat,                // realFastPathBytes
    d: nat,                // realDummyBytes
    t: nat,                // realTxDriverBytes
    a: nat,                // realTcpRemoteAckNum
    ack32: nat,            // tcpRemoteAckNum
    wnd: nat,              // tcpSndWnd
    shift: nat,            // tcpSndWndShift
    lastInserted: nat,     // lastInsertedEmptyAck
    bp: bool,              // txLwipBp
    // the world around the driver
    txq: seq<nat>,         // accepted payloads on their way through the FPGA
    copies: seq<Copy>,     // feedback not yet read
    wire: nat,             // position reached by the bytes on the wire
    lwip: nat,             // position reached by the bytes handed to lwIP
    handed: nat,           // greatest acknowledgement handed to lwIP
    peerShift: nat,        // window scale offered in the SYN-ACK
    segs: seq<Segment>,    // everything the peer has sent; the first one is the SYN-ACK
    taken: nat,            // how many of them updateRx has started on
    hwFired: nat,          // bytes fired by hardware
    hwCounted: nat)        // hardware bytes counted in f

  // preSendCheck and sendPayload of one thread. x is the session, p the payload size.
  datatype Sender =
    | Idle
    | HaveF(x: nat, p: nat, f: nat)
    | HaveA(x: nat, p: nat, a: nat)
    | HaveFA(x: nat, p: nat, f: nat, a: nat)
    | HaveW(x: nat, p: nat, f: nat, a: nat, w: nat)
    | WindowOk(x: nat, p: nat, f: nat)
    | HaveGf(x: nat, p: nat, f: nat, gf: nat)
    | HaveGd(x: nat, p: nat, f: nat, gd: nat)
    | Passed(x: nat, p: nat, f: nat)
    | CountedF(x: nat, p: nat)
    | Accepted(x: nat, p: nat)

  // lwipDummyWrite in the service thread.
  datatype Serv =
    | ServIdle
    | CountHwF(x: nat, len: nat)
    | CountHwGf(x: nat, len: nat)
    | Writing(x: nat, len: nat, fromHw: bool, sent: nat)
    | CountD(x: nat, len: nat, fromHw: bool)
    | CountGd(x: nat, len: nat, fromHw: bool)

  // updateRx in the receive thread; k is the index of the segment being processed.
  datatype Rx =
    | RxIdle
    | StoreWnd(x: nat, k: nat, prev32: nat)
    | StoreAck(x: nat, k: nat, prev32: nat)
    | Gate(x: nat, k: nat)
    | Body(x: nat, k: nat)
    | Insert(x: nat, k: nat, t2: nat)
    | Deliver(x: nat, k: nat)

  datatype State = State(
    ss: seq<Session>,
    senders: seq<Sender>,
    serv: Serv,
    rx: Rx,
    gf: nat,               // globalFastPathBytes
    gd: nat,               // globalDummyBytes
    reportOnly: bool,      // fires are reported, not sent
    gdFirst: bool)         // the dummy counter is loaded before the fast path counter

  // Steps of each thread, and of the world around them.
  datatype SenderOp =
    | LoadF(len: nat)
    | LoadA(len: nat)
    | LoadOther
    | LoadW
    | CheckWindow
    | LoadGf
    | LoadGd
    | GiveUp
    | AddF
    | AddGf
    | FastSend

  datatype ServOp =
    | TakeCopy
    | AddHwF
    | AddHwGf
    | Write(n: nat)
    | AddD
    | AddGd

  datatype RxOp =
    | TakeSegment
    | PutWnd
    | PutAck
    | TestGate
    | TestInsert
    | InsertAck
    | PushToLwip

  datatype WorldOp =
    | FpgaSend
    | HwFire(len: nat)
    | Transmit(n: nat)
    | PeerSend(seg: Segment)

  // One step; x is the session it works on and i the sending thread.
  datatype Action =
    | Send(i: nat, x: nat, sop: SenderOp)
    | Serve(x: nat, vop: ServOp)
    | Receive(x: nat, rop: RxOp)
    | World(x: nat, wop: WorldOp)

  function Pow2(n: nat): (r: nat)
    ensures r > 0
  {
    if n == 0 then 1 else 2 * Pow2(n - 1)
  }

  // ws is w, doubled once for every unit of the shift n.
  predicate Doublings(ws: seq<nat>, w: nat, n: nat) {
    |ws| == n + 1 && ws[0] == w && forall i :: 0 <= i < n ==> ws[i + 1] == ws[i] + ws[i]
  }

  // The factors of the scales that a peer may offer.
  const SCALES: seq<nat> :=
    [1, 2, 4, 8, 0x10, 0x20, 0x40, 0x80, 0x100, 0x200, 0x400, 0x800, 0x1000, 0x2000, 0x4000]

  lemma Pow2Doubles(n: nat)
    ensures Pow2(0) == 1 && Pow2(n + 1) == 2 * Pow2(n)
  {
  }

  // Multiplying by the power is shifting.
  lemma {:induction false} ShiftDoubles(ws: seq<nat>, w: nat, n: nat)
    requires Doublings(ws, w, n)
    ensures ws[n] == w * Pow2(n)
    decreases n
  {
    if n > 0 {
      ShiftDoubles(ws[..n], w, n - 1);
      assert w * (2 * Pow2(n - 1)) == 2 * (w * Pow2(n - 1));
    }
  }

  lemma {:induction false} Pow2Table(n: nat)
    requires n <= 14
    ensures Pow2(n) == SCALES[n]
    decreases n
  {
    if n > 0 {
      Pow2Table(n - 1);
    }
  }

  // The window a segment really offers: that of the SYN-ACK is never scaled.
  function TrueWnd(s: Session, k: nat): nat
    requires k < |s.segs|
  {
    if k == 0 then s.segs[0].wnd16 else s.segs[k].wnd16 * Pow2(s.peerShift)
  }

  // The two tests of preSendCheck that accept a payload of p bytes.
  predicate WindowAllows(f: nat, a: nat, w: nat, p: nat) {
    var unAcked := if f < a then 0 else f - a;
    var allowed := if w < WND_MARGIN then 0 else w - WND_MARGIN;
    unAcked + p <= allowed
  }

  predicate InFlightAllows(gf: nat, gd: nat) {
    (gf - gd) % TWO64 <= FPGA_IN_FLIGHT_LIMIT
  }

  function PayloadSize(len: nat): nat {
    if len < MAX_PAYLOAD_SIZE then len else MAX_PAYLOAD_SIZE
  }

  // A payload fits into one packet: all of it goes out, or as much as a packet holds.
  lemma TakesWhatFits(len: nat)
    ensures PayloadSize(len) <= len && PayloadSize(len) <= 1360
    ensures PayloadSize(len) == len || PayloadSize(len) == 1360
  {
  }

  // The window test in one comparison each: the payload and the margin fit above the
  // acknowledgement, and into the window alone when the peer is ahead of the counter.
  lemma WindowRule(f: nat, a: nat, w: nat, p: nat)
    requires p > 0
    ensures WindowAllows(f, a, w, p) <==> f + p + 2048 <= a + w && p + 2048 <= w
  {
  }

  lemma InFlightRule(gf: nat, gd: nat)
    requires gd <= gf < gd + 0x1_0000_0000_0000_0000
    ensures InFlightAllows(gf, gd) <==> gf - gd <= 8192
  {
  }

  function FreshSession(base: nat, peerShift: nat): Session {
    Session(base, base, base, base, base, 0, 0, 0, 0, false,
            [], [], base, base, 0, peerShift, [], 0, 0, 0)
  }

  predicate Init(s: State) {
    && (forall x :: 0 <= x < |s.ss| ==> IsFresh(s.ss[x]))
    && (forall i :: 0 <= i < |s.senders| ==> s.senders[i].Idle?)
    && s.serv.ServIdle? && s.rx.RxIdle? && s.gf == 0 && s.gd == 0
  }

  predicate IsFresh(s: Session) {
    && s.base < TWO32
    && s.peerShift <= MAX_SHIFT
    && s == FreshSession(s.base, s.peerShift)
  }

  // A well-behaved peer: it answers the SYN first, acknowledges only bytes that were on the
  // wire, never goes back, and never skips 2^32 bytes between two segments.
  predicate PeerMaySend(s: Session, seg: Segment) {
    && seg.wnd16 < 0x10000 && seg.ack < TWO64
    && if s.segs == [] then seg.ack == s.base
       else LastAck(s) <= seg.ack < LastAck(s) + TWO32 && seg.ack <= s.wire
  }

  function LastAck(s: Session): nat
    requires s.segs != []
  {
    s.segs[|s.segs| - 1].ack
  }

  // ----- preSendCheck and sendPayload -----

  predicate SenderOn(v: Sender, x: nat) { v.Idle? || v.x == x }

  predicate SenderCan(op: SenderOp, v: Sender, gdFirst: bool) {
    match op
    case LoadF(len) => v.Idle? && len > 0
    case LoadA(len) => v.Idle? && len > 0
    case LoadOther => v.HaveF? || v.HaveA?
    case LoadW => v.HaveFA?
    case CheckWindow => v.HaveW?
    case LoadGf => v.HaveGd? || (v.WindowOk? && !gdFirst)
    case LoadGd => v.HaveGf? || v.WindowOk?
    case GiveUp => !v.Idle? && !v.CountedF? && !v.Accepted?
    case AddF => v.Passed?
    case AddGf => v.CountedF?
    case FastSend => v.Accepted?
  }

  function SenderNext(op: SenderOp, x: nat, v: Sender, o: Session, gf: nat, gd: nat): Sender
    requires SenderCan(op, v, false)
  {
    match op
    case LoadF(len) => HaveF(x, PayloadSize(len), o.f)
    case LoadA(len) => HaveA(x, PayloadSize(len), o.a)
    case LoadOther => if v.HaveF? then HaveFA(x, v.p, v.f, o.a) else HaveFA(x, v.p, o.f, v.a)
    case LoadW => HaveW(x, v.p, v.f, v.a, o.wnd)
    case CheckWindow =>
      if o.bp || !WindowAllows(v.f, v.a, v.w, v.p) then Idle else WindowOk(x, v.p, v.f)
    case LoadGf =>
      if v.WindowOk? then HaveGf(x, v.p, v.f, gf)
      else if InFlightAllows(gf, v.gd) then Passed(x, v.p, v.f)
      else Idle
    case LoadGd =>
      if v.WindowOk? then HaveGd(x, v.p, v.f, gd)
      else if InFlightAllows(v.gf, gd) then Passed(x, v.p, v.f)
      else Idle
    case GiveUp => Idle
    case AddF => CountedF(x, v.p)
    case AddGf => Accepted(x, v.p)
    case FastSend => Idle
  }

  // Whichever load comes first, the sender carries as much of the payload as fits.
  lemma LoadTakesWhatFits(len: nat, x: nat, o: Session, gf: nat, gd: nat)
    requires len > 0
    ensures var p := if len <= 1360 then len else 1360;
            && SenderNext(LoadF(len), x, Idle, o, gf, gd) == HaveF(x, p, o.f)
            && SenderNext(LoadA(len), x, Idle, o, gf, gd) == HaveA(x, p, o.a)
  {
    TakesWhatFits(len);
  }

  function SenderWrites(op: SenderOp, v: Sender, o: Session): Session
    requires SenderCan(op, v, false)
  {
    match op
    case AddF => o.(f := o.f + v.p)
    case FastSend => o.(txq := o.txq + [v.p])
    case _ => o
  }

  function SenderGf(op: SenderOp, v: Sender, gf: nat): nat
    requires SenderCan(op, v, false)
  {
    if op.AddGf? then gf + v.p else gf
  }

  // ----- ekaServThread and lwipDummyWrite -----

  predicate ServOn(v: Serv, x: nat) { v.ServIdle? || v.x == x }

  predicate ServCan(op: ServOp, v: Serv, o: Session) {
    match op
    case TakeCopy => v.ServIdle? && o.copies != []
    case AddHwF => v.CountHwF?
    case AddHwGf => v.CountHwGf?
    case Write(n) => v.Writing? && n <= v.len - v.sent
    case AddD => v.CountD?
    case AddGd => v.CountGd?
  }

  function ServNext(op: ServOp, x: nat, v: Serv, o: Session, reportOnly: bool): Serv
    requires ServCan(op, v, o)
  {
    match op
    case TakeCopy =>
      var c := o.copies[0];
      if !c.fromHw then Writing(x, c.len, false, 0)
      else if reportOnly then ServIdle
      else CountHwF(x, c.len)
    case AddHwF => CountHwGf(x, v.len)
    case AddHwGf => Writing(x, v.len, true, 0)
    case Write(n) =>
      if v.sent + n == v.len then CountD(x, v.len, v.fromHw)
      else Writing(x, v.len, v.fromHw, v.sent + n)
    case AddD => CountGd(x, v.len, v.fromHw)
    case AddGd => ServIdle
  }

  function ServWrites(op: ServOp, v: Serv, o: Session): Session
    requires ServCan(op, v, o)
  {
    match op
    case TakeCopy => o.(copies := o.copies[1..])
    case AddHwF => o.(f := o.f + v.len, hwCounted := o.hwCounted + v.len)
    case AddHwGf => o
    case Write(n) => o.(lwip := o.lwip + n, bp := v.sent + n != v.len)
    case AddD => o.(d := o.d + v.len)
    case AddGd => o
  }

  // ----- updateRx -----

  predicate RxIdleOrOn(v: Rx, x: nat) { v.RxIdle? || v.x == x }

  predicate RxCan(op: RxOp, v: Rx, o: Session) {
    if op.TakeSegment? then v.RxIdle? && o.taken < |o.segs|
    else
      && !v.RxIdle? && v.k < |o.segs|
      && match op
         case PutWnd => v.StoreWnd?
         case PutAck => v.StoreAck?
         case TestGate => v.Gate?
         case TestInsert => v.Body?
         case InsertAck => v.Insert?
         case PushToLwip => v.Deliver?
         case TakeSegment => false
  }

  function RxNext(op: RxOp, x: nat, v: Rx, o: Session): Rx
    requires RxCan(op, v, o)
  {
    match op
    case TakeSegment => StoreWnd(x, o.taken, o.ack32)
    case PutWnd => StoreAck(x, v.k, v.prev32)
    case PutAck => Gate(x, v.k)
    case TestGate => if o.a > o.t then Body(x, v.k) else Deliver(x, v.k)
    case TestInsert => if o.t > o.lastInserted then Insert(x, v.k, o.t) else Gate(x, v.k)
    case InsertAck => Gate(x, v.k)
    case PushToLwip => RxIdle
  }

  function RxWrites(op: RxOp, v: Rx, o: Session): Session
    requires RxCan(op, v, o)
  {
    match op
    case TakeSegment => o.(taken := o.taken + 1, ack32 := Low32(o.segs[o.taken].ack))
    case PutWnd => o.(wnd := o.segs[v.k].wnd16 * Pow2(o.shift) % TWO32)
    case PutAck => o.(a := Seq32To64(o.a, v.prev32, Low32(o.segs[v.k].ack), 0))
    case TestGate => o
    case TestInsert => o
    case InsertAck => o.(lastInserted := o.t, handed := Max(o.handed, o.t))
    case PushToLwip =>
      o.(shift := if v.k == 0 then o.peerShift else o.shift,
         handed := Max(o.handed, o.segs[v.k].ack))
  }

  // ----- FPGA, lwIP and peer -----

  predicate WorldCan(op: WorldOp, o: Session) {
    match op
    case FpgaSend => o.txq != []
    case HwFire(len) => 0 < len <= MAX_PAYLOAD_SIZE
    case Transmit(n) => o.t + n <= o.lwip
    case PeerSend(seg) => PeerMaySend(o, seg)
  }

  function WorldWrites(op: WorldOp, o: Session, reportOnly: bool): Session
    requires WorldCan(op, o)
  {
    match op
    case FpgaSend =>
      o.(txq := o.txq[1..], wire := o.wire + o.txq[0], copies := o.copies + [Copy(o.txq[0], false)])
    case HwFire(len) =>
      var fired := if reportOnly then 0 else len;
      o.(wire := o.wire + fired, hwFired := o.hwFired + fired, copies := o.copies + [Copy(len, true)])
    case Transmit(n) => o.(t := o.t + n)
    case PeerSend(seg) => o.(segs := o.segs + [seg])
  }

  // ----- the whole system -----

  predicate Enabled(c: Action, s: State) {
    c.x < |s.ss| &&
    match c
    case Send(i, x, op) =>
      i < |s.senders| && SenderOn(s.senders[i], x) && SenderCan(op, s.senders[i], s.gdFirst)
    case Serve(x, op) => ServOn(s.serv, x) && ServCan(op, s.serv, s.ss[x])
    case Receive(x, op) => RxIdleOrOn(s.rx, x) && RxCan(op, s.rx, s.ss[x])
    case World(x, op) => WorldCan(op, s.ss[x])
  }

  // The session after the step; no step touches another one.
  function NextSession(c: Action, s: State): Session
    requires Enabled(c, s)
  {
    var o := s.ss[c.x];
    match c
    case Send(i, _, op) => SenderWrites(op, s.senders[i], o)
    case Serve(_, op) => ServWrites(op, s.serv, o)
    case Receive(_, op) => RxWrites(op, s.rx, o)
    case World(_, op) => WorldWrites(op, o, s.reportOnly)
  }

  function Apply(c: Action, s: State): State
    requires Enabled(c, s)
  {
    var o := s.ss[c.x];
    var s' := s.(ss := s.ss[c.x := NextSession(c, s)]);
    match c
    case Send(i, x, op) =>
      var v := s.senders[i];
      s'.(senders := s.senders[i := SenderNext(op, x, v, o, s.gf, s.gd)], gf := SenderGf(op, v, s.gf))
    case Serve(x, op) =>
      s'.(serv := ServNext(op, x, s.serv, o, s.reportOnly),
          gf := if op.AddHwGf? then s.gf + s.serv.len else s.gf,
          gd := if op.AddGd? then s.gd + s.serv.len else s.gd)
    case Receive(x, op) => s'.(rx := RxNext(op, x, s.rx, o))
    case World(x, op) => s'
  }

  function Max(x: nat, y: nat): nat {
    if x < y then y else x
  }

  // The state after a list of actions, if every one of them was enabled in turn.
  function Run(s: State, cs: seq<Action>): Option<State>
    decreases |cs|
  {
    if cs == [] then Some(s)
    else if Enabled(cs[0], s) then Run(Apply(cs[0], s), cs[1..])
    else None
  }

  lemma {:induction false} RunAppend(s: State, cs: seq<Action>, c: Action)
    requires Run(s, cs).Some? && Enabled(c, Run(s, cs).value)
    ensures Run(s, cs + [c]) == Some(Apply(c, Run(s, cs).value))
    decreases |cs|
  {
    var cc := cs + [c];
    if cs == [] {
      assert cc[1..] == [];
    } else {
      assert cc[1..] == cs[1..] + [c];
      RunAppend(Apply(cs[0], s), cs[1..], c);
    }
  }
}
