// The inductive invariant of the fast path: byte conservation, exact acknowledgements and
// the bounds that every thread carries between its loads and its stores. Each part is
// proved for one session and one thread, then lifted to the whole state.
module FastPathInvariant {
  import opened Arith
  import opened SeqNum
  import opened Sums
  import opened FastPath

  // ----- where the bytes are -----

  function Self(n: nat): nat { n }

  function SwLen(c: Copy): nat { if c.fromHw then 0 else c.len }

  function HwLen(c: Copy): nat { if c.fromHw then c.len else 0 }

  // Bytes of session x that a sender has counted in f and not yet given to the FPGA.
  function PendingOf(v: Sender, x: nat): nat {
    if (v.CountedF? || v.Accepted?) && v.x == x then v.p else 0
  }

  function PendingFor(x: nat): Sender -> nat {
    (v: Sender) => PendingOf(v, x)
  }

  function Pending(s: State, x: nat): nat { SumOf(s.senders, PendingFor(x)) }

  // The service thread's share of session x: counted in f but not in d; handed to lwIP but
  // not in d; taken from the channel but not counted in f.
  function ServOut(v: Serv, x: nat): nat {
    if (v.CountHwGf? || v.Writing? || v.CountD?) && v.x == x then v.len else 0
  }

  function ServWritten(v: Serv, x: nat): nat {
    if v.Writing? && v.x == x then v.sent
    else if v.CountD? && v.x == x then v.len
    else 0
  }

  function ServUncounted(v: Serv, x: nat): nat {
    if v.CountHwF? && v.x == x then v.len else 0
  }

  // Hardware bytes that are on the wire and whose copy nobody has read.
  function HwQueued(o: Session, reportOnly: bool): nat {
    if reportOnly then 0 else SumOf(o.copies, HwLen)
  }

  // Software bytes between AddF and the service thread.
  function Queued(o: Session): nat {
    SumOf(o.copies, SwLen) + SumOf(o.txq, Self)
  }

  predicate GoodLen(n: nat) { 0 < n <= MAX_PAYLOAD_SIZE }

  predicate GoodQueues(o: Session) {
    && (forall j :: 0 <= j < |o.copies| ==> GoodLen(o.copies[j].len))
    && (forall j :: 0 <= j < |o.txq| ==> GoodLen(o.txq[j]))
  }

  // The books of one session; pend is the senders' share.
  predicate Books(o: Session, x: nat, v: Serv, pend: nat, reportOnly: bool) {
    var hwWaiting := HwQueued(o, reportOnly) + ServUncounted(v, x);
    && o.f == o.d + ServOut(v, x) + Queued(o) + pend
    && o.wire + SumOf(o.txq, Self) + pend == o.f + hwWaiting
    && o.hwFired == o.hwCounted + hwWaiting
    && o.lwip == o.d + ServWritten(v, x)
    && o.base <= o.t <= o.lwip && o.base <= o.d
    && GoodQueues(o)
  }

  ghost predicate BooksOk(s: State) {
    forall x :: 0 <= x < |s.ss| ==> Books(s.ss[x], x, s.serv, Pending(s, x), s.reportOnly)
  }

  predicate GoodSender(v: Sender) { v.Idle? || GoodLen(v.p) }

  predicate GoodServ(v: Serv) {
    v.ServIdle? || (GoodLen(v.len) && (v.Writing? ==> v.sent < v.len))
  }

  // ----- the receive thread -----

  predicate RxOn(rx: Rx, x: nat) { !rx.RxIdle? && rx.x == x }

  // How many segments have their acknowledgement, and their window, stored.
  function AcksStored(o: Session, rx: Rx, x: nat): nat {
    if RxOn(rx, x) && (rx.StoreWnd? || rx.StoreAck?) then rx.k else o.taken
  }

  function WndsStored(o: Session, rx: Rx, x: nat): nat {
    if RxOn(rx, x) && rx.StoreWnd? then rx.k else o.taken
  }

  // What the peer has sent so far.
  predicate PeerOk(o: Session) {
    && o.base < TWO32 && o.peerShift <= MAX_SHIFT
    && (o.segs != [] ==> o.segs[0].ack == o.base)
    && (forall j :: 0 <= j < |o.segs| ==>
          o.segs[j].wnd16 < 0x10000 && o.segs[j].ack < TWO64 && o.segs[j].ack <= o.wire)
    && (forall j :: 0 < j < |o.segs| ==>
          o.segs[j - 1].ack <= o.segs[j].ack < o.segs[j - 1].ack + TWO32)
  }

  predicate RxOk(o: Session, rx: Rx, x: nat) {
    && o.taken <= |o.segs|
    && (RxOn(rx, x) ==> o.taken == rx.k + 1)
    && (var n := AcksStored(o, rx, x); o.a == if n == 0 then o.base else o.segs[n - 1].ack)
    && (var n := WndsStored(o, rx, x); o.wnd == if n == 0 then 0 else TrueWnd(o, n - 1))
    && o.ack32 == (if o.taken == 0 then 0 else Low32(o.segs[o.taken - 1].ack))
    && (RxOn(rx, x) && (rx.StoreWnd? || rx.StoreAck?) ==>
          rx.prev32 == if rx.k == 0 then 0 else Low32(o.segs[rx.k - 1].ack))
    && o.shift == (if o.taken == 0 || (RxOn(rx, x) && rx.k == 0) then 0 else o.peerShift)
    && o.handed <= o.t && o.lastInserted <= o.t
    && (RxOn(rx, x) && rx.Insert? ==> o.lastInserted < rx.t2 <= o.t)
    && (RxOn(rx, x) && rx.Deliver? ==> o.a <= o.t)
  }

  ghost predicate AcksOk(s: State) {
    forall x :: 0 <= x < |s.ss| ==> PeerOk(s.ss[x]) && RxOk(s.ss[x], s.rx, x)
  }

  // ----- the senders -----

  // Some segment of the peer really offered a right edge of at least e.
  predicate Offered(o: Session, e: nat) {
    exists k :: 0 <= k < |o.segs| && e <= o.segs[k].ack + TrueWnd(o, k)
  }

  // What a sender has loaded is at most what is there now, and a window that it tested was
  // really offered.
  predicate SenderOk(v: Sender, o: Session, gf: nat, gd: nat) {
    match v
    case Idle => true
    case HaveF(_, _, f) => f <= o.f
    case HaveA(_, _, a) => a <= o.a
    case HaveFA(_, _, f, a) => f <= o.f && a <= o.a
    case HaveW(_, _, f, a, w) => f <= o.f && (w == 0 || Offered(o, a + w))
    case WindowOk(_, p, f) => f <= o.f && Offered(o, f + p + WND_MARGIN)
    case HaveGf(_, p, f, g) => f <= o.f && Offered(o, f + p + WND_MARGIN) && g <= gf
    case HaveGd(_, p, f, g) => f <= o.f && Offered(o, f + p + WND_MARGIN) && g <= gd
    case Passed(_, p, f) => f <= o.f && Offered(o, f + p + WND_MARGIN)
    case CountedF(_, _) => true
    case Accepted(_, _) => true
  }

  predicate SenderOkIn(v: Sender, s: State) {
    v.Idle? || (v.x < |s.ss| && GoodSender(v) && SenderOk(v, s.ss[v.x], s.gf, s.gd))
  }

  ghost predicate SendersOk(s: State) {
    forall i :: 0 <= i < |s.senders| ==> SenderOkIn(s.senders[i], s)
  }

  // ----- the device-wide counters -----

  function AcceptedBytes(v: Sender): nat { if v.Accepted? then v.p else 0 }

  function ServGlobal(v: Serv): nat {
    if v.Writing? || v.CountD? || v.CountGd? then v.len else 0
  }

  predicate GlobalConserved(s: State) {
    s.gf == s.gd + SumOf(s.ss, Queued) + SumOf(s.senders, AcceptedBytes) + ServGlobal(s.serv)
  }

  ghost predicate Inv(s: State) {
    && BooksOk(s) && AcksOk(s) && SendersOk(s)
    && GoodServ(s.serv) && (s.serv.ServIdle? || s.serv.x < |s.ss|)
    && (s.rx.RxIdle? || s.rx.x < |s.ss|)
    && GlobalConserved(s)
  }

  // ----- one session, one thread: the books -----

  lemma QueueSums(o: Session, c: Copy, p: nat)
    ensures SumOf(o.txq + [p], Self) == SumOf(o.txq, Self) + p
    ensures SumOf(o.copies + [c], SwLen) == SumOf(o.copies, SwLen) + SwLen(c)
    ensures SumOf(o.copies + [c], HwLen) == SumOf(o.copies, HwLen) + HwLen(c)
  {
    SumAppend(o.txq, [p], Self);
    SumAppend(o.copies, [c], SwLen);
    SumAppend(o.copies, [c], HwLen);
  }

  lemma SenderBooks(op: SenderOp, x: nat, v: Sender, o: Session, gf: nat, gd: nat, w: Serv,
                    pend: nat, reportOnly: bool)
    requires SenderCan(op, v, false) && SenderOn(v, x) && GoodSender(v)
    requires Books(o, x, w, pend, reportOnly) && PendingOf(v, x) <= pend
    ensures Books(SenderWrites(op, v, o), x, w,
                  pend - PendingOf(v, x) + PendingOf(SenderNext(op, x, v, o, gf, gd), x), reportOnly)
  {
    if op.FastSend? {
      QueueSums(o, Copy(0, false), v.p);
    }
  }

  lemma ServBooks(op: ServOp, x: nat, v: Serv, o: Session, pend: nat, reportOnly: bool)
    requires ServCan(op, v, o) && ServOn(v, x) && GoodServ(v)
    requires Books(o, x, v, pend, reportOnly)
    ensures Books(ServWrites(op, v, o), x, ServNext(op, x, v, o, reportOnly), pend, reportOnly)
    ensures GoodServ(ServNext(op, x, v, o, reportOnly))
  {
  }

  lemma WorldBooks(op: WorldOp, x: nat, o: Session, v: Serv, pend: nat, reportOnly: bool)
    requires WorldCan(op, o) && Books(o, x, v, pend, reportOnly)
    ensures Books(WorldWrites(op, o, reportOnly), x, v, pend, reportOnly)
  {
    if op.FpgaSend? {
      QueueSums(o, Copy(o.txq[0], false), 0);
    } else if op.HwFire? {
      QueueSums(o, Copy(op.len, true), 0);
    }
  }

  lemma RxBooks(op: RxOp, x: nat, rx: Rx, o: Session, v: Serv, pend: nat, reportOnly: bool)
    requires RxCan(op, rx, o) && Books(o, x, v, pend, reportOnly)
    ensures Books(RxWrites(op, rx, o), x, v, pend, reportOnly)
  {
  }

  // ----- one session, one thread: the acknowledgements -----

  // The receive thread's view of a session depends on these fields only; the driver
  // position, the wire and the peer's history may grow.
  predicate AckFieldsGrow(o: Session, o': Session) {
    && o'.base == o.base && o'.peerShift == o.peerShift
    && o.segs <= o'.segs && o'.taken == o.taken
    && o'.a == o.a && o'.ack32 == o.ack32 && o'.wnd == o.wnd && o'.shift == o.shift
    && o'.lastInserted == o.lastInserted && o'.handed == o.handed
    && o.t <= o'.t && o.wire <= o'.wire
  }

  lemma RxOkGrows(o: Session, o': Session, rx: Rx, x: nat)
    requires RxOk(o, rx, x) && AckFieldsGrow(o, o')
    ensures RxOk(o', rx, x)
  {
  }

  lemma PeerSendOk(o: Session, seg: Segment)
    requires PeerOk(o) && PeerMaySend(o, seg) && o.base <= o.wire
    ensures PeerOk(o.(segs := o.segs + [seg]))
  {
    var o' := o.(segs := o.segs + [seg]);
    forall j | 0 < j < |o'.segs|
      ensures o'.segs[j - 1].ack <= o'.segs[j].ack < o'.segs[j - 1].ack + TWO32
    {
      assert o'.segs[j - 1] == o.segs[j - 1];
    }
  }

  lemma WorldAcks(op: WorldOp, o: Session, rx: Rx, x: nat, reportOnly: bool)
    requires WorldCan(op, o) && PeerOk(o) && RxOk(o, rx, x) && o.base <= o.wire
    ensures PeerOk(WorldWrites(op, o, reportOnly)) && RxOk(WorldWrites(op, o, reportOnly), rx, x)
  {
    RxOkGrows(o, WorldWrites(op, o, reportOnly), rx, x);
    if op.PeerSend? {
      PeerSendOk(o, op.seg);
    }
  }

  lemma Pow2OfMaxShift()
    ensures Pow2(MAX_SHIFT) == 0x4000
  {
    assert Pow2(14) == 0x4000;
  }

  lemma {:induction false} Pow2Monotone(m: nat, n: nat)
    requires m <= n
    ensures Pow2(m) <= Pow2(n)
    decreases n
  {
    if m < n {
      Pow2Monotone(m, n - 1);
    }
  }

  // No window is truncated by the 32-bit store.
  lemma ScaledWindowFits(wnd16: nat, shift: nat)
    requires wnd16 < 0x10000 && shift <= MAX_SHIFT
    ensures wnd16 * Pow2(shift) < TWO32
  {
    Pow2OfMaxShift();
    Pow2Monotone(shift, 14);
    MulMonotone(wnd16, Pow2(shift), 0xFFFF, 0x4000);
  }

  // What the receive thread stores is the 16-bit window, shifted by the session's scale.
  lemma PutWndShifts(v: Rx, o: Session, ws: seq<nat>)
    requires v.StoreWnd? && v.k < |o.segs| && o.segs[v.k].wnd16 < 0x10000 && o.shift <= 14
    requires Doublings(ws, o.segs[v.k].wnd16, o.shift)
    ensures RxWrites(PutWnd, v, o).wnd == ws[o.shift] == o.segs[v.k].wnd16 * SCALES[o.shift]
  {
    ShiftDoubles(ws, o.segs[v.k].wnd16, o.shift);
    Pow2Table(o.shift);
    ScaledWindowFits(o.segs[v.k].wnd16, o.shift);
  }

  // And what a segment offers is its window, shifted by the scale of the SYN-ACK; that of
  // the SYN-ACK itself is not shifted.
  lemma TrueWndIsShifted(o: Session, k: nat)
    requires k < |o.segs| && o.peerShift <= 14
    ensures TrueWnd(o, k) == o.segs[k].wnd16 * if k == 0 then 1 else SCALES[o.peerShift]
  {
    Pow2Table(o.peerShift);
  }

  lemma PutWndAcks(rx: Rx, x: nat, o: Session)
    requires RxCan(PutWnd, rx, o) && RxIdleOrOn(rx, x) && PeerOk(o) && RxOk(o, rx, x)
    ensures RxOk(RxWrites(PutWnd, rx, o), RxNext(PutWnd, x, rx, o), x)
  {
    ScaledWindowFits(o.segs[rx.k].wnd16, o.shift);
    assert Pow2(0) == 1;
  }

  // The acknowledgement about to be stored is the true one: the peer never goes back.
  lemma AckIsExact(o: Session, rx: Rx, x: nat)
    requires PeerOk(o) && RxOk(o, rx, x) && RxOn(rx, x) && rx.StoreAck?
    ensures Seq32To64(o.a, rx.prev32, Low32(o.segs[rx.k].ack), 0) == o.segs[rx.k].ack
    ensures o.a <= o.segs[rx.k].ack
  {
    var next := o.segs[rx.k].ack;
    if rx.k == 0 {
      ModUnique(next, TWO32, 0, next);
      ModUnique(next, TWO64, 0, next);
      assert Seq32To64(o.a, 0, next, 0) == next;
    } else {
      assert o.a <= next < o.a + TWO32;
      ModUnique(next - o.a, TWO64, 0, next - o.a);
      Seq32To64Exact(o.a, next);
    }
  }

  lemma TakeSegmentAcks(rx: Rx, x: nat, o: Session)
    requires RxCan(TakeSegment, rx, o) && PeerOk(o) && RxOk(o, rx, x)
    ensures RxOk(RxWrites(TakeSegment, rx, o), RxNext(TakeSegment, x, rx, o), x)
  {
  }

  lemma PutAckAcks(rx: Rx, x: nat, o: Session)
    requires RxCan(PutAck, rx, o) && RxIdleOrOn(rx, x) && PeerOk(o) && RxOk(o, rx, x)
    ensures RxOk(RxWrites(PutAck, rx, o), RxNext(PutAck, x, rx, o), x)
  {
    AckIsExact(o, rx, x);
  }

  // The gate: nothing passes it while a > t, so what passes is at most t.
  lemma GateAcks(op: RxOp, x: nat, rx: Rx, o: Session)
    requires RxCan(op, rx, o) && RxIdleOrOn(rx, x) && RxOk(o, rx, x)
    requires op.TestGate? || op.TestInsert? || op.InsertAck? || op.PushToLwip?
    ensures RxOk(RxWrites(op, rx, o), RxNext(op, x, rx, o), x)
  {
  }

  lemma RxAcks(op: RxOp, x: nat, rx: Rx, o: Session)
    requires RxCan(op, rx, o) && RxIdleOrOn(rx, x) && PeerOk(o) && RxOk(o, rx, x)
    ensures PeerOk(RxWrites(op, rx, o)) && RxOk(RxWrites(op, rx, o), RxNext(op, x, rx, o), x)
  {
    match op {
      case TakeSegment => TakeSegmentAcks(rx, x, o);
      case PutWnd => PutWndAcks(rx, x, o);
      case PutAck => PutAckAcks(rx, x, o);
      case _ => GateAcks(op, x, rx, o);
    }
  }

  // ----- what only grows -----

  predicate Grown(o: Session, o': Session) {
    && o.f <= o'.f && o.d <= o'.d && o.t <= o'.t && o.a <= o'.a
    && o.lwip <= o'.lwip && o.wire <= o'.wire
    && o.lastInserted <= o'.lastInserted && o.handed <= o'.handed
    && o.hwCounted <= o'.hwCounted && o.hwFired <= o'.hwFired
    && o.segs <= o'.segs && o'.peerShift == o.peerShift && o'.base == o.base
  }

  lemma RxGrows(op: RxOp, x: nat, rx: Rx, o: Session)
    requires RxCan(op, rx, o) && RxIdleOrOn(rx, x) && PeerOk(o) && RxOk(o, rx, x)
    ensures Grown(o, RxWrites(op, rx, o))
  {
    if op.PutAck? {
      AckIsExact(o, rx, x);
    }
  }

  lemma OthersGrow(s: State, c: Action)
    requires Enabled(c, s) && !c.Receive?
    ensures Grown(s.ss[c.x], NextSession(c, s)) && AckFieldsGrow(s.ss[c.x], NextSession(c, s))
  {
  }

  lemma NextSessionGrows(s: State, c: Action)
    requires Enabled(c, s) && AcksOk(s)
    ensures Grown(s.ss[c.x], NextSession(c, s))
  {
    if c.Receive? {
      assert PeerOk(s.ss[c.x]) && RxOk(s.ss[c.x], s.rx, c.x);
      RxGrows(c.rop, c.x, s.rx, s.ss[c.x]);
    } else {
      OthersGrow(s, c);
    }
  }

  lemma OfferedGrows(o: Session, o': Session, e: nat)
    requires Offered(o, e) && Grown(o, o')
    ensures Offered(o', e)
  {
    var k :| 0 <= k < |o.segs| && e <= o.segs[k].ack + TrueWnd(o, k);
    assert o'.segs[k] == o.segs[k] && o'.segs[0] == o.segs[0];
    assert e <= o'.segs[k].ack + TrueWnd(o', k);
  }

  lemma SenderOkGrows(v: Sender, o: Session, o': Session, gf: nat, gf': nat, gd: nat, gd': nat)
    requires SenderOk(v, o, gf, gd) && Grown(o, o') && gf <= gf' && gd <= gd'
    ensures SenderOk(v, o', gf', gd')
  {
    match v {
      case HaveW(_, _, _, a, w) =>
        if w != 0 { OfferedGrows(o, o', a + w); }
      case WindowOk(_, p, f) => OfferedGrows(o, o', f + p + WND_MARGIN);
      case HaveGf(_, p, f, _) => OfferedGrows(o, o', f + p + WND_MARGIN);
      case HaveGd(_, p, f, _) => OfferedGrows(o, o', f + p + WND_MARGIN);
      case Passed(_, p, f) => OfferedGrows(o, o', f + p + WND_MARGIN);
      case _ =>
    }
  }

  // ----- one sender -----

  // A torn pair is still safe: the window is loaded after the acknowledgement and stored
  // before it, so some segment offered at least this edge.
  lemma LoadedEdgeOffered(o: Session, rx: Rx, x: nat, a: nat)
    requires PeerOk(o) && RxOk(o, rx, x) && a <= o.a && o.wnd != 0
    ensures Offered(o, a + o.wnd)
  {
    var m, n := AcksStored(o, rx, x), WndsStored(o, rx, x);
    assert n == m || n == m + 1;
    assert o.a <= o.segs[n - 1].ack;
  }

  lemma WindowTestOffers(o: Session, f: nat, a: nat, w: nat, p: nat)
    requires WindowAllows(f, a, w, p) && 0 < p && (w == 0 || Offered(o, a + w))
    ensures Offered(o, f + p + WND_MARGIN)
  {
    var k :| 0 <= k < |o.segs| && a + w <= o.segs[k].ack + TrueWnd(o, k);
    assert f + p + WND_MARGIN <= o.segs[k].ack + TrueWnd(o, k);
  }

  lemma SenderMoves(op: SenderOp, x: nat, v: Sender, o: Session, gf: nat, gd: nat, rx: Rx)
    requires SenderCan(op, v, false) && SenderOn(v, x) && GoodSender(v) && SenderOk(v, o, gf, gd)
    requires PeerOk(o) && RxOk(o, rx, x)
    ensures var v' := SenderNext(op, x, v, o, gf, gd); GoodSender(v') && SenderOk(v', o, gf, gd)
  {
    if op.LoadW? {
      if o.wnd != 0 {
        LoadedEdgeOffered(o, rx, x, v.a);
      }
    } else if op.CheckWindow? {
      if WindowAllows(v.f, v.a, v.w, v.p) {
        WindowTestOffers(o, v.f, v.a, v.w, v.p);
      }
    }
  }

  // ----- lifting to the whole state -----

  lemma PendingUpdate(s: State, i: nat, v': Sender, x: nat)
    requires i < |s.senders| && SenderOn(s.senders[i], x) && SenderOn(v', x)
    ensures PendingOf(s.senders[i], x) <= Pending(s, x)
    ensures SumOf(s.senders[i := v'], PendingFor(x))
            == Pending(s, x) - PendingOf(s.senders[i], x) + PendingOf(v', x)
    ensures forall y: nat :: y != x ==> SumOf(s.senders[i := v'], PendingFor(y)) == Pending(s, y)
  {
    SumAtLeast(s.senders, i, PendingFor(x));
    SumUpdate(s.senders, i, v', PendingFor(x));
    forall y: nat | y != x ensures SumOf(s.senders[i := v'], PendingFor(y)) == Pending(s, y) {
      SumUpdate(s.senders, i, v', PendingFor(y));
    }
  }

  predicate OnlySession(s: State, s': State, x: nat) {
    && x < |s.ss| == |s'.ss| && s'.ss == s.ss[x := s'.ss[x]]
    && s'.reportOnly == s.reportOnly && s'.gdFirst == s.gdFirst
  }

  lemma BooksLift(s: State, s': State, x: nat)
    requires BooksOk(s) && OnlySession(s, s', x)
    requires s'.serv == s.serv || (ServOn(s.serv, x) && ServOn(s'.serv, x))
    requires forall y: nat :: y != x ==> Pending(s', y) == Pending(s, y)
    requires Books(s'.ss[x], x, s'.serv, Pending(s', x), s'.reportOnly)
    ensures BooksOk(s')
  {
    forall y | 0 <= y < |s'.ss| ensures Books(s'.ss[y], y, s'.serv, Pending(s', y), s'.reportOnly) {
      assert Books(s.ss[y], y, s.serv, Pending(s, y), s.reportOnly);
    }
  }

  lemma SendBooks(s: State, i: nat, x: nat, op: SenderOp)
    requires BooksOk(s) && SendersOk(s) && Enabled(Send(i, x, op), s)
    ensures BooksOk(Apply(Send(i, x, op), s))
  {
    var s', o, v := Apply(Send(i, x, op), s), s.ss[x], s.senders[i];
    assert Books(o, x, s.serv, Pending(s, x), s.reportOnly) && SenderOkIn(v, s);
    PendingUpdate(s, i, s'.senders[i], x);
    SenderBooks(op, x, v, o, s.gf, s.gd, s.serv, Pending(s, x), s.reportOnly);
    BooksLift(s, s', x);
  }

  lemma OtherBooks(s: State, c: Action)
    requires BooksOk(s) && GoodServ(s.serv) && Enabled(c, s) && !c.Send?
    ensures BooksOk(Apply(c, s))
  {
    var s', x := Apply(c, s), c.x;
    var o := s.ss[x];
    assert Books(o, x, s.serv, Pending(s, x), s.reportOnly);
    match c {
      case Serve(_, op) => ServBooks(op, x, s.serv, o, Pending(s, x), s.reportOnly);
      case Receive(_, op) => RxBooks(op, x, s.rx, o, s.serv, Pending(s, x), s.reportOnly);
      case World(_, op) => WorldBooks(op, x, o, s.serv, Pending(s, x), s.reportOnly);
    }
    BooksLift(s, s', x);
  }

  lemma StepServ(s: State, c: Action)
    requires BooksOk(s) && GoodServ(s.serv) && Enabled(c, s)
    ensures GoodServ(Apply(c, s).serv)
  {
    if c.Serve? {
      assert Books(s.ss[c.x], c.x, s.serv, Pending(s, c.x), s.reportOnly);
      ServBooks(c.vop, c.x, s.serv, s.ss[c.x], Pending(s, c.x), s.reportOnly);
    }
  }

  lemma RxOkElsewhere(o: Session, rx: Rx, rx': Rx, x: nat, y: nat)
    requires RxOk(o, rx, y) && y != x
    requires rx' == rx || (RxIdleOrOn(rx, x) && RxIdleOrOn(rx', x))
    ensures RxOk(o, rx', y)
  {
  }

  lemma AcksLift(s: State, s': State, x: nat)
    requires AcksOk(s) && OnlySession(s, s', x)
    requires s'.rx == s.rx || (RxIdleOrOn(s.rx, x) && RxIdleOrOn(s'.rx, x))
    requires PeerOk(s'.ss[x]) && RxOk(s'.ss[x], s'.rx, x)
    ensures AcksOk(s')
  {
    forall y | 0 <= y < |s'.ss| ensures PeerOk(s'.ss[y]) && RxOk(s'.ss[y], s'.rx, y) {
      if y != x {
        assert PeerOk(s.ss[y]) && RxOk(s.ss[y], s.rx, y);
        RxOkElsewhere(s.ss[y], s.rx, s'.rx, x, y);
      }
    }
  }

  lemma ReceiveAcks(s: State, x: nat, op: RxOp)
    requires AcksOk(s) && Enabled(Receive(x, op), s)
    ensures AcksOk(Apply(Receive(x, op), s))
  {
    var o := s.ss[x];
    assert PeerOk(o) && RxOk(o, s.rx, x);
    RxAcks(op, x, s.rx, o);
    AcksLift(s, Apply(Receive(x, op), s), x);
  }

  lemma PeerOkKept(o: Session, o': Session)
    requires PeerOk(o) && o'.segs == o.segs && o.wire <= o'.wire && o'.base == o.base && o'.peerShift == o.peerShift
    ensures PeerOk(o')
  {
  }

  lemma NextAcks(s: State, c: Action)
    requires Enabled(c, s) && !c.Receive?
    requires PeerOk(s.ss[c.x]) && RxOk(s.ss[c.x], s.rx, c.x) && s.ss[c.x].base <= s.ss[c.x].wire
    ensures PeerOk(NextSession(c, s)) && RxOk(NextSession(c, s), s.rx, c.x)
  {
    if c.World? {
      WorldAcks(c.wop, s.ss[c.x], s.rx, c.x, s.reportOnly);
    } else {
      OthersGrow(s, c);
      RxOkGrows(s.ss[c.x], NextSession(c, s), s.rx, c.x);
      PeerOkKept(s.ss[c.x], NextSession(c, s));
    }
  }

  lemma OtherAcks(s: State, c: Action)
    requires AcksOk(s) && BooksOk(s) && Enabled(c, s) && !c.Receive?
    ensures AcksOk(Apply(c, s))
  {
    var x, o := c.x, s.ss[c.x];
    assert PeerOk(o) && RxOk(o, s.rx, x) && Books(o, x, s.serv, Pending(s, x), s.reportOnly);
    NextAcks(s, c);
    AcksLift(s, Apply(c, s), x);
  }

  lemma SenderLift(v: Sender, s: State, s': State, x: nat)
    requires SenderOkIn(v, s) && OnlySession(s, s', x)
    requires Grown(s.ss[x], s'.ss[x]) && s.gf <= s'.gf && s.gd <= s'.gd
    ensures SenderOkIn(v, s')
  {
    if !v.Idle? {
      assert Grown(s.ss[v.x], s'.ss[v.x]);
      SenderOkGrows(v, s.ss[v.x], s'.ss[v.x], s.gf, s'.gf, s.gd, s'.gd);
    }
  }

  lemma OtherSenders(s: State, c: Action)
    requires SendersOk(s) && AcksOk(s) && Enabled(c, s) && !c.Send?
    ensures SendersOk(Apply(c, s))
  {
    var s' := Apply(c, s);
    NextSessionGrows(s, c);
    forall i | 0 <= i < |s'.senders| ensures SenderOkIn(s'.senders[i], s') {
      assert SenderOkIn(s.senders[i], s);
      SenderLift(s.senders[i], s, s', c.x);
    }
  }

  lemma SendSenders(s: State, i: nat, x: nat, op: SenderOp)
    requires SendersOk(s) && AcksOk(s) && Enabled(Send(i, x, op), s)
    ensures SendersOk(Apply(Send(i, x, op), s))
  {
    var s', o := Apply(Send(i, x, op), s), s.ss[x];
    NextSessionGrows(s, Send(i, x, op));
    assert PeerOk(o) && RxOk(o, s.rx, x) && SenderOkIn(s.senders[i], s);
    SenderMoves(op, x, s.senders[i], o, s.gf, s.gd, s.rx);
    forall j | 0 <= j < |s'.senders| ensures SenderOkIn(s'.senders[j], s') {
      assert SenderOkIn(s.senders[j], s);
      SenderLift(s'.senders[j], s, s', x);
    }
  }

  lemma SendGlobal(s: State, i: nat, x: nat, op: SenderOp)
    requires GlobalConserved(s) && Enabled(Send(i, x, op), s)
    ensures GlobalConserved(Apply(Send(i, x, op), s))
  {
    var s' := Apply(Send(i, x, op), s);
    SumUpdate(s.ss, x, s'.ss[x], Queued);
    SumUpdate(s.senders, i, s'.senders[i], AcceptedBytes);
    if op.FastSend? {
      QueueSums(s.ss[x], Copy(0, false), s.senders[i].p);
    }
  }

  lemma ServeGlobal(s: State, x: nat, op: ServOp)
    requires GlobalConserved(s) && Enabled(Serve(x, op), s)
    ensures GlobalConserved(Apply(Serve(x, op), s))
  {
    SumUpdate(s.ss, x, ServWrites(op, s.serv, s.ss[x]), Queued);
  }

  lemma ReceiveGlobal(s: State, x: nat, op: RxOp)
    requires GlobalConserved(s) && Enabled(Receive(x, op), s)
    ensures GlobalConserved(Apply(Receive(x, op), s))
  {
    SumUpdate(s.ss, x, RxWrites(op, s.rx, s.ss[x]), Queued);
  }

  lemma WorldQueued(o: Session, op: WorldOp, reportOnly: bool)
    requires WorldCan(op, o)
    ensures Queued(WorldWrites(op, o, reportOnly)) == Queued(o)
  {
    if op.FpgaSend? {
      QueueSums(o, Copy(o.txq[0], false), 0);
    } else if op.HwFire? {
      QueueSums(o, Copy(op.len, true), 0);
    }
  }

  lemma WorldGlobal(s: State, x: nat, op: WorldOp)
    requires GlobalConserved(s) && Enabled(World(x, op), s)
    ensures GlobalConserved(Apply(World(x, op), s))
  {
    WorldQueued(s.ss[x], op, s.reportOnly);
    SumUpdate(s.ss, x, WorldWrites(op, s.ss[x], s.reportOnly), Queued);
  }

  lemma InitInv(s: State)
    requires Init(s)
    ensures Inv(s)
  {
    forall x | 0 <= x < |s.ss|
      ensures Books(s.ss[x], x, s.serv, Pending(s, x), s.reportOnly)
      ensures PeerOk(s.ss[x]) && RxOk(s.ss[x], s.rx, x)
    {
      assert IsFresh(s.ss[x]);
      SumBounded(s.senders, PendingFor(x), 0);
    }
    SumBounded(s.senders, AcceptedBytes, 0);
    forall x | 0 <= x < |s.ss| ensures Queued(s.ss[x]) == 0 {
      assert IsFresh(s.ss[x]);
    }
    SumBounded(s.ss, Queued, 0);
  }

  lemma StepBooks(s: State, c: Action)
    requires BooksOk(s) && SendersOk(s) && GoodServ(s.serv) && Enabled(c, s)
    ensures BooksOk(Apply(c, s))
  {
    if c.Send? {
      SendBooks(s, c.i, c.x, c.sop);
    } else {
      OtherBooks(s, c);
    }
  }

  lemma StepAcks(s: State, c: Action)
    requires BooksOk(s) && AcksOk(s) && Enabled(c, s)
    ensures AcksOk(Apply(c, s))
  {
    if c.Receive? {
      ReceiveAcks(s, c.x, c.rop);
    } else {
      OtherAcks(s, c);
    }
  }

  lemma StepSenders(s: State, c: Action)
    requires AcksOk(s) && SendersOk(s) && Enabled(c, s)
    ensures SendersOk(Apply(c, s))
  {
    if c.Send? {
      SendSenders(s, c.i, c.x, c.sop);
    } else {
      OtherSenders(s, c);
    }
  }

  lemma StepGlobal(s: State, c: Action)
    requires GlobalConserved(s) && Enabled(c, s)
    ensures GlobalConserved(Apply(c, s))
  {
    match c
    case Send(i, x, op) => SendGlobal(s, i, x, op);
    case Serve(x, op) => ServeGlobal(s, x, op);
    case Receive(x, op) => ReceiveGlobal(s, x, op);
    case World(x, op) => WorldGlobal(s, x, op);
  }

  lemma StepInRange(s: State, c: Action)
    requires Enabled(c, s) && (s.serv.ServIdle? || s.serv.x < |s.ss|) && (s.rx.RxIdle? || s.rx.x < |s.ss|)
    ensures var s' := Apply(c, s);
            (s'.serv.ServIdle? || s'.serv.x < |s'.ss|) && (s'.rx.RxIdle? || s'.rx.x < |s'.ss|)
  {
  }

  lemma StepInv(s: State, c: Action)
    requires Inv(s) && Enabled(c, s)
    ensures Inv(Apply(c, s))
  {
    StepBooks(s, c);
    StepAcks(s, c);
    StepSenders(s, c);
    StepGlobal(s, c);
    StepServ(s, c);
    StepInRange(s, c);
  }

  // Every state of every run satisfies the invariant.
  lemma {:induction false} RunInv(s: State, cs: seq<Action>)
    requires Inv(s) && Run(s, cs).Some?
    ensures Inv(Run(s, cs).value)
    decreases |cs|
  {
    if cs != [] {
      StepInv(s, cs[0]);
      RunInv(Apply(cs[0], s), cs[1..]);
    }
  }
}
