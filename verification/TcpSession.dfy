// One TCP session as the object that its own threads call: the check before a fast send, the
// replay of a packet into lwIP, the frames lwIP puts out, and the options of the SYN-ACK.
module TcpSession {
  import opened Arith
  import opened Checksum
  import opened PseudoChecksum
  import opened SeqNum
  import FastPath
  import FastPathInvariant
  import RxGate
  import SynAck

  datatype Errno = NoError | ENETDOWN | EAGAIN | ENOSYS

  // What sendStackEthFrame reads of a frame.
  datatype Packet = Packet(syn: bool, fin: bool, isTcp: bool, seqno: nat, ackno: nat, wnd: nat,
                           payloadLen: nat, size: nat)

  // What goes to the FPGA: writes of the session's context, whole frames and empty
  // acknowledgements. FrameTooLong is on_error.
  datatype Out =
    | LocalSeqWnd(seqno: nat)
    | RemoteSeqWnd(ackno: nat, wnd: nat)
    | Whole(pkt: Packet)
    | EmptyAck(ackno: nat)
    | FrameTooLong

  // The fields that sendStackEthFrame works on.
  datatype Tx = Tx(localSeq: nat, remoteSeq: nat, rcvWnd: nat, f: nat, d: nat, t: nat, a: nat)

  // One answer of lwip_write: the bytes it took, and whether errno asks to try again.
  datatype Wrote = Wrote(n: int, again: bool)

  // How lwipDummyWrite ends on a list of answers; Waiting when it still loops after them.
  datatype WriteEnd = Written | Failed(rc: int) | Waiting

  // ----- the fast send -----

  // preSendCheck with all its loads made at one moment.
  predicate Accepts(f: nat, a: nat, wnd: nat, bp: bool, gf: nat, gd: nat, len: nat) {
    && !bp
    && FastPath.WindowAllows(f, a, wnd, FastPath.PayloadSize(len))
    && FastPath.InFlightAllows(gf, gd)
  }

  // The sender of the step system, run without interruption, comes to the same decision and
  // adds the same bytes.
  lemma UninterruptedSend(o: FastPath.Session, x: nat, gf: nat, gd: nat, len: nat)
    requires len > 0
    ensures var v0 := FastPath.SenderNext(FastPath.LoadF(len), x, FastPath.Idle, o, gf, gd);
            var v1 := FastPath.SenderNext(FastPath.LoadOther, x, v0, o, gf, gd);
            var v2 := FastPath.SenderNext(FastPath.LoadW, x, v1, o, gf, gd);
            var v3 := FastPath.SenderNext(FastPath.CheckWindow, x, v2, o, gf, gd);
            if !v3.WindowOk? then v3.Idle? && !Accepts(o.f, o.a, o.wnd, o.bp, gf, gd, len)
            else
              var v4 := FastPath.SenderNext(FastPath.LoadGf, x, v3, o, gf, gd);
              var v5 := FastPath.SenderNext(FastPath.LoadGd, x, v4, o, gf, gd);
              && (v5.Passed? <==> Accepts(o.f, o.a, o.wnd, o.bp, gf, gd, len))
              && (!v5.Passed? ==> v5.Idle?)
              && (v5.Passed? ==>
                    && FastPath.SenderWrites(FastPath.AddF, v5, o)
                       == o.(f := o.f + FastPath.PayloadSize(len))
                    && FastPath.SenderGf(FastPath.AddGf, FastPath.CountedF(x, v5.p), gf)
                       == gf + FastPath.PayloadSize(len))
  {
    var p := FastPath.PayloadSize(len);
    var v3 := FastPath.SenderNext(FastPath.CheckWindow, x, FastPath.HaveW(x, p, o.f, o.a, o.wnd), o, gf, gd);
    if v3.WindowOk? {
      var v4 := FastPath.SenderNext(FastPath.LoadGf, x, v3, o, gf, gd);
      assert v4 == FastPath.HaveGf(x, p, o.f, gf);
      assert FastPath.SenderCan(FastPath.LoadGd, v4, false);
    }
  }

  // ----- the replay into lwIP -----

  function Taken(w: Wrote): nat {
    if w.n <= 0 then 0 else w.n
  }

  // lwIP never takes more than it is offered.
  predicate Honest(ws: seq<Wrote>, left: nat)
    decreases |ws|
  {
    ws == [] || (Taken(ws[0]) <= left && Honest(ws[1..], left - Taken(ws[0])))
  }

  function WriteLoop(active: bool, ws: seq<Wrote>, left: nat): WriteEnd
    requires Honest(ws, left)
    decreases |ws|
  {
    if ws == [] then Waiting
    else if ws[0].n <= 0 && !ws[0].again then Failed(ws[0].n)
    else if !active || Taken(ws[0]) == left then Written
    else WriteLoop(active, ws[1..], left - Taken(ws[0]))
  }

  function TakenInAll(ws: seq<Wrote>): nat
    decreases |ws|
  {
    if ws == [] then 0 else Taken(ws[0]) + TakenInAll(ws[1..])
  }

  predicate Soft(w: Wrote) { w.n > 0 || w.again }

  // After k answers lwIP has taken every byte, with no hard error on the way.
  predicate AllTaken(ws: seq<Wrote>, left: nat, k: nat) {
    0 < k <= |ws| && TakenInAll(ws[..k]) == left && forall i :: 0 <= i < k ==> Soft(ws[i])
  }

  lemma AllTakenStep(ws: seq<Wrote>, left: nat, k: nat)
    requires 0 < k <= |ws| && Taken(ws[0]) <= left
    ensures k > 1 ==> (AllTaken(ws, left, k) <==> Soft(ws[0]) && AllTaken(ws[1..], left - Taken(ws[0]), k - 1))
    ensures k == 1 ==> (AllTaken(ws, left, k) <==> Soft(ws[0]) && Taken(ws[0]) == left)
  {
    assert ws[..k][1..] == ws[1..][..k - 1];
    var rest := ws[1..];
    assert forall i :: 0 <= i < k - 1 ==> rest[i] == ws[i + 1];
    assert forall i :: 0 < i < k ==> ws[i] == rest[i - 1];
  }

  // While the exchange side is active the loop ends well if and only if lwIP has at some
  // point taken every byte, with no hard error before.
  lemma {:induction false} WrittenWhenAllTaken(ws: seq<Wrote>, left: nat)
    requires Honest(ws, left) && left > 0
    ensures WriteLoop(true, ws, left).Written? <==> exists k: nat :: AllTaken(ws, left, k)
    decreases |ws|
  {
    if ws != [] {
      AllTakenStep(ws, left, 1);
      var more := left - Taken(ws[0]);
      if more > 0 {
        WrittenWhenAllTaken(ws[1..], more);
        if k: nat :| AllTaken(ws, left, k) {
          AllTakenStep(ws, left, k);
        }
        if k: nat :| AllTaken(ws[1..], more, k) {
          AllTakenStep(ws, left, k + 1);
        }
      } else if k: nat :| AllTaken(ws, left, k) {
        AllTakenStep(ws, left, k);
      }
    }
  }

  // The answer k is the first hard error, and before it lwIP has not taken every byte.
  predicate FailsAt(ws: seq<Wrote>, left: nat, k: nat, rc: int) {
    && k < |ws| && ws[k].n == rc <= 0 && !ws[k].again && (forall i :: 0 <= i < k ==> Soft(ws[i]))
    && TakenInAll(ws[..k]) < left
  }

  lemma FailsAtStep(ws: seq<Wrote>, left: nat, k: nat, rc: int)
    requires 0 < k < |ws| && Taken(ws[0]) <= left
    ensures FailsAt(ws, left, k, rc) <==> Soft(ws[0]) && FailsAt(ws[1..], left - Taken(ws[0]), k - 1, rc)
  {
    assert ws[..k][1..] == ws[1..][..k - 1];
    var rest := ws[1..];
    assert forall i :: 0 <= i < k - 1 ==> rest[i] == ws[i + 1];
    assert forall i :: 0 < i < k ==> ws[i] == rest[i - 1];
  }

  // And it fails, with that answer, if and only if a hard error comes first.
  lemma {:induction false} FailsAtHardError(ws: seq<Wrote>, left: nat, rc: int)
    requires Honest(ws, left) && left > 0
    ensures WriteLoop(true, ws, left) == Failed(rc) <==> exists k: nat :: FailsAt(ws, left, k, rc)
    decreases |ws|
  {
    if ws != [] {
      var more := left - Taken(ws[0]);
      if !Soft(ws[0]) {
        assert TakenInAll(ws[..0]) == 0;
        assert ws[0].n == rc ==> FailsAt(ws, left, 0, rc);
      } else {
        if more > 0 {
          FailsAtHardError(ws[1..], more, rc);
          if k: nat :| FailsAt(ws[1..], more, k, rc) {
            FailsAtStep(ws, left, k + 1, rc);
          }
        }
        if k: nat :| FailsAt(ws, left, k, rc) {
          FailsAtStep(ws, left, k, rc);
        }
      }
    }
  }

  // ----- the frames of lwIP -----

  const MAX_FRAME := 1536

  // sendEthFrame of the control session; active is whether whole frames can leave at all.
  function EthFrame(active: bool, pkt: Packet): seq<Out> {
    if !active then [] else if pkt.size > MAX_FRAME then [FrameTooLong] else [Whole(pkt)]
  }

  // sendStackEthFrame on the fields.
  function StackFrame(tx: Tx, established: bool, active: bool, pkt: Packet): (Tx, seq<Out>) {
    var whole := EthFrame(active, pkt);
    if pkt.syn then
      var base := Low32(pkt.seqno + 1);
      (Tx(base, tx.remoteSeq, pkt.wnd, base, base, base, base), [LocalSeqWnd(base)] + whole)
    else if pkt.fin then (tx, whole)
    else if !established then
      (tx.(remoteSeq := pkt.ackno, rcvWnd := pkt.wnd), [RemoteSeqWnd(pkt.ackno, pkt.wnd)] + whole)
    else if TcpSeqLt(pkt.seqno, tx.localSeq) then (tx, whole)
    else
      (tx.(remoteSeq := pkt.ackno,
           localSeq := Low32(pkt.seqno + pkt.payloadLen),
           t := if pkt.isTcp then tx.t + pkt.payloadLen else tx.t),
       if tx.remoteSeq != pkt.ackno then [RemoteSeqWnd(pkt.ackno, tx.rcvWnd), EmptyAck(pkt.ackno)] else [])
  }

  // What leaves as a whole frame: nothing while the exchange side is down, and a frame of
  // more than 1536 bytes aborts.
  predicate LeavesWhole(out: seq<Out>, active: bool, pkt: Packet) {
    && (active && pkt.size <= 1536 <==> out == [Whole(pkt)])
    && (active && pkt.size > 1536 <==> out == [FrameTooLong])
    && (!active <==> out == [])
  }

  // The SYN takes one sequence number: fields, counters and the FPGA's context start behind
  // it.
  lemma SynStarts(tx: Tx, established: bool, active: bool, pkt: Packet, pos: nat)
    requires pkt.syn && pkt.seqno == pos % 0x1_0000_0000
    ensures var (tx', out) := StackFrame(tx, established, active, pkt);
            var base := (pos + 1) % 0x1_0000_0000;
            && tx'.localSeq == tx'.f == tx'.d == tx'.t == tx'.a == base
            && tx'.remoteSeq == tx.remoteSeq && tx'.rcvWnd == pkt.wnd
            && out != [] && out[0] == LocalSeqWnd(base) && LeavesWhole(out[1..], active, pkt)
  {
    Low32Add(pos, 1);
    var (tx', out) := StackFrame(tx, established, active, pkt);
    assert out[1..] == EthFrame(active, pkt);
  }

  // A FIN changes nothing.
  lemma FinPasses(tx: Tx, established: bool, active: bool, pkt: Packet)
    requires pkt.fin && !pkt.syn
    ensures StackFrame(tx, established, active, pkt).0 == tx
    ensures LeavesWhole(StackFrame(tx, established, active, pkt).1, active, pkt)
  {
  }

  // Before the connection stands a frame gives the context its acknowledgement and its
  // window, moves no counter and leaves whole.
  lemma FirstAckPasses(tx: Tx, active: bool, pkt: Packet)
    requires !pkt.syn && !pkt.fin
    ensures var (tx', out) := StackFrame(tx, false, active, pkt);
            && tx'.remoteSeq == pkt.ackno && tx'.rcvWnd == pkt.wnd
            && tx'.localSeq == tx.localSeq && tx'.f == tx.f && tx'.d == tx.d && tx'.t == tx.t && tx'.a == tx.a
            && out != [] && out[0] == RemoteSeqWnd(pkt.ackno, pkt.wnd) && LeavesWhole(out[1..], active, pkt)
  {
    var (tx', out) := StackFrame(tx, false, active, pkt);
    assert out[1..] == EthFrame(active, pkt);
  }

  // A segment of lwIP on an established session, at its full sequence position.
  datatype LwipSegment = LwipSegment(pos: nat, len: nat, ackno: nat, wnd: nat)

  function FrameOf(g: LwipSegment): Packet {
    Packet(false, false, true, Low32(g.pos), g.ackno, g.wnd, g.len, HDRS + g.len)
  }

  function SendSegment(tx: Tx, g: LwipSegment): (Tx, seq<Out>) {
    StackFrame(tx, true, true, FrameOf(g))
  }

  // For a segment less than half the sequence space from the position reached, the counter
  // stays at the end of everything sent if and only if the segment is the next one or lies
  // wholly before it. A retransmission that carries new bytes is never counted.
  lemma CountIsExact(tx: Tx, g: LwipSegment)
    requires tx.localSeq == Low32(tx.t) && -TWO31 <= g.pos - tx.t < TWO31
    ensures var (tx', out) := SendSegment(tx, g);
            && (tx'.t == FastPath.Max(tx.t, g.pos + g.len) <==> g.pos == tx.t || g.pos + g.len <= tx.t)
            && (tx'.localSeq == Low32(tx'.t) <==> g.pos <= tx.t)
            && (g.pos < tx.t ==> out == EthFrame(true, FrameOf(g)))
            && (g.pos >= tx.t ==> forall o :: o in out ==> o.RemoteSeqWnd? || o.EmptyAck?)
  {
    TcpSeqLtIsOrder(g.pos, tx.t);
    if g.pos >= tx.t {
      Low32Add(g.pos, g.len);
      AheadByGap(tx.t, g.pos, g.len);
    }
  }

  lemma AheadByGap(t: nat, pos: nat, len: nat)
    requires t <= pos < t + TWO31
    ensures Low32(pos + len) == Low32(t + len) <==> pos == t
  {
    Low32Difference(pos + len, t + len);
  }

  // What lwIP sends: new segments in order, and retransmissions of what it sent before, in
  // frames that the driver takes.
  predicate InOrder(next: nat, gs: seq<LwipSegment>)
    decreases |gs|
  {
    gs == [] || (
      && HDRS + gs[0].len <= MAX_FRAME
      && (gs[0].pos == next || (gs[0].pos < next <= gs[0].pos + TWO31 && gs[0].pos + gs[0].len <= next))
      && InOrder(FastPath.Max(next, gs[0].pos + gs[0].len), gs[1..]))
  }

  function Reached(next: nat, gs: seq<LwipSegment>): nat
    decreases |gs|
  {
    if gs == [] then next else Reached(FastPath.Max(next, gs[0].pos + gs[0].len), gs[1..])
  }

  function Retransmissions(next: nat, gs: seq<LwipSegment>): seq<Out>
    decreases |gs|
  {
    if gs == [] then []
    else (if gs[0].pos < next then [Whole(FrameOf(gs[0]))] else [])
         + Retransmissions(FastPath.Max(next, gs[0].pos + gs[0].len), gs[1..])
  }

  function StackRun(tx: Tx, gs: seq<LwipSegment>): (Tx, seq<Out>)
    decreases |gs|
  {
    if gs == [] then (tx, [])
    else
      var (tx1, out) := SendSegment(tx, gs[0]);
      var (tx2, more) := StackRun(tx1, gs[1..]);
      (tx2, out + more)
  }

  function WholeFrames(out: seq<Out>): seq<Out>
    decreases |out|
  {
    if out == [] then [] else (if out[0].Whole? then [out[0]] else []) + WholeFrames(out[1..])
  }

  // Over a whole run the transmit counter is the 64-bit position lwIP has reached, its low
  // half is tcpLocalSeqNum, no other counter moves, and the only frames that reach the wire
  // are the retransmissions: every new payload was on the wire already.
  lemma {:induction false} StackRunIsExact(tx: Tx, gs: seq<LwipSegment>)
    requires tx.localSeq == Low32(tx.t) && InOrder(tx.t, gs)
    ensures var (tx', out) := StackRun(tx, gs);
            && tx'.t == Reached(tx.t, gs) && tx'.localSeq == Low32(tx'.t)
            && tx'.f == tx.f && tx'.d == tx.d && tx'.a == tx.a && tx'.rcvWnd == tx.rcvWnd
            && WholeFrames(out) == Retransmissions(tx.t, gs)
    decreases |gs|
  {
    if gs != [] {
      CountIsExact(tx, gs[0]);
      var (tx1, out) := SendSegment(tx, gs[0]);
      StackRunIsExact(tx1, gs[1..]);
      var (_, more) := StackRun(tx1, gs[1..]);
      WholeFramesHead(out, more);
      if gs[0].pos >= tx.t {
        NoWholeFrames(out);
      } else {
        assert WholeFrames(out) == out + WholeFrames([]);
      }
    }
  }

  lemma {:induction false} WholeFramesHead(out: seq<Out>, more: seq<Out>)
    ensures WholeFrames(out + more) == WholeFrames(out) + WholeFrames(more)
    decreases |out|
  {
    if out == [] {
      assert out + more == more;
    } else {
      var rest, all := out[1..], out + more;
      assert all[1..] == rest + more && all[0] == out[0];
      WholeFramesHead(rest, more);
      var front := if out[0].Whole? then [out[0]] else [];
      assert front + WholeFrames(rest) + WholeFrames(more) == front + (WholeFrames(rest) + WholeFrames(more));
    }
  }

  lemma {:induction false} NoWholeFrames(out: seq<Out>)
    requires forall o :: o in out ==> !o.Whole?
    ensures WholeFrames(out) == []
    decreases |out|
  {
    if out != [] {
      NoWholeFrames(out[1..]);
    }
  }

  // The acknowledgement that a frame or an empty acknowledgement carries.
  predicate Carries(o: Out, ackno: nat) {
    (o.Whole? && o.pkt.ackno == ackno) || (o.EmptyAck? && o.ackno == ackno)
  }

  // Dropped frames lose no acknowledgement: the number each one carries is on the wire, in
  // some frame of the run, or was there before the run.
  lemma {:induction false} NoAckIsLost(tx: Tx, gs: seq<LwipSegment>, i: nat)
    requires i < |gs| && forall j :: 0 <= j < |gs| ==> HDRS + gs[j].len <= MAX_FRAME
    ensures gs[i].ackno == tx.remoteSeq || exists o :: o in StackRun(tx, gs).1 && Carries(o, gs[i].ackno)
    decreases |gs|
  {
    var (tx1, out) := SendSegment(tx, gs[0]);
    var (_, more) := StackRun(tx1, gs[1..]);
    assert StackRun(tx, gs).1 == out + more;
    if i == 0 {
      assert out != [] ==> out[|out| - 1] in out + more && Carries(out[|out| - 1], gs[0].ackno);
    } else {
      NoAckIsLost(tx1, gs[1..], i - 1);
      if gs[i].ackno == tx1.remoteSeq {
        assert out != [] ==> out[|out| - 1] in out + more;
      } else {
        var o :| o in more && Carries(o, gs[i].ackno);
        assert o in out + more;
      }
    }
  }

  // What the FPGA's own packets of the session carry.
  datatype Context = Context(seqno: nat, ackno: nat, wnd: nat)

  function Loaded(c: Context, o: Out): Context {
    if o.LocalSeqWnd? then c.(seqno := o.seqno)
    else if o.RemoteSeqWnd? then c.(ackno := o.ackno, wnd := o.wnd)
    else c
  }

  function ContextAfter(c: Context, out: seq<Out>): Context
    decreases |out|
  {
    if out == [] then c else ContextAfter(Loaded(c, out[0]), out[1..])
  }

  lemma {:induction false} ContextConcat(c: Context, out: seq<Out>, more: seq<Out>)
    ensures ContextAfter(c, out + more) == ContextAfter(ContextAfter(c, out), more)
    decreases |out|
  {
    if out == [] {
      assert out + more == more;
    } else {
      assert (out + more)[1..] == out[1..] + more;
      ContextConcat(Loaded(c, out[0]), out[1..], more);
    }
  }

  lemma ContextOfOne(c: Context, o: Out)
    ensures ContextAfter(c, [o]) == Loaded(c, o)
  {
    assert [o][1..] == [];
  }

  lemma ContextOfTwo(c: Context, o1: Out, o2: Out)
    ensures ContextAfter(c, [o1, o2]) == Loaded(Loaded(c, o1), o2)
  {
    assert [o1, o2][1..] == [o2];
    ContextOfOne(Loaded(c, o1), o2);
  }

  lemma ContextStep(c: Context, tx: Tx, g: LwipSegment)
    requires c.ackno == tx.remoteSeq && c.wnd == tx.rcvWnd
    ensures var (tx', out) := SendSegment(tx, g);
            ContextAfter(c, out) == c.(ackno := tx'.remoteSeq) && tx'.rcvWnd == tx.rcvWnd
  {
    var out := SendSegment(tx, g).1;
    if |out| == 2 {
      ContextOfTwo(c, out[0], out[1]);
      assert out == [out[0], out[1]];
    } else if out != [] {
      ContextOfOne(c, out[0]);
      assert out == [out[0]];
    }
  }

  // The last acknowledgement that a new segment of the run carries.
  function LastAckno(next: nat, was: nat, gs: seq<LwipSegment>): nat
    decreases |gs|
  {
    if gs == [] then was
    else LastAckno(FastPath.Max(next, gs[0].pos + gs[0].len), if gs[0].pos < next then was else gs[0].ackno, gs[1..])
  }

  // The FPGA's context keeps up with lwIP's acknowledgements over a whole run, and its other
  // numbers stay.
  lemma {:induction false} ContextFollows(c: Context, tx: Tx, gs: seq<LwipSegment>)
    requires tx.localSeq == Low32(tx.t) && InOrder(tx.t, gs)
    requires c.ackno == tx.remoteSeq && c.wnd == tx.rcvWnd
    ensures var (tx', out) := StackRun(tx, gs);
            && tx'.remoteSeq == LastAckno(tx.t, tx.remoteSeq, gs)
            && ContextAfter(c, out) == Context(c.seqno, tx'.remoteSeq, tx.rcvWnd)
    decreases |gs|
  {
    if gs != [] {
      var (tx1, out) := SendSegment(tx, gs[0]);
      CountIsExact(tx, gs[0]);
      TcpSeqLtIsOrder(gs[0].pos, tx.t);
      ContextStep(c, tx, gs[0]);
      ContextFollows(c.(ackno := tx1.remoteSeq), tx1, gs[1..]);
      ContextConcat(c, out, StackRun(tx1, gs[1..]).1);
    }
  }

  // ----- a connection from its SYN on -----

  // lwIP's SYN, its answer to the SYN-ACK, and what it sends on the connection.
  function ConnectionRun(tx: Tx, syn: Packet, ack: Packet, gs: seq<LwipSegment>): (Tx, seq<Out>) {
    var (tx1, out1) := StackFrame(tx, false, true, syn);
    var (tx2, out2) := StackFrame(tx1, false, true, ack);
    var (tx3, out3) := StackRun(tx2, gs);
    (tx3, out1 + (out2 + out3))
  }

  predicate Handshake(syn: Packet, ack: Packet, pos: nat) {
    && syn.syn && syn.seqno == pos % 0x1_0000_0000 && syn.size <= MAX_FRAME
    && !ack.syn && !ack.fin && ack.size <= MAX_FRAME
  }

  lemma HandshakeOut(tx: Tx, syn: Packet, ack: Packet, pos: nat, c: Context)
    requires Handshake(syn, ack, pos)
    ensures var (tx1, out1) := StackFrame(tx, false, true, syn);
            var (tx2, out2) := StackFrame(tx1, false, true, ack);
            var base := (pos + 1) % 0x1_0000_0000;
            && tx2 == Tx(base, ack.ackno, ack.wnd, base, base, base, base)
            && out1 == [LocalSeqWnd(base), Whole(syn)] && out2 == [RemoteSeqWnd(ack.ackno, ack.wnd), Whole(ack)]
            && ContextAfter(ContextAfter(c, out1), out2) == Context(base, ack.ackno, ack.wnd)
            && WholeFrames(out1) == [Whole(syn)] && WholeFrames(out2) == [Whole(ack)]
  {
    SynStarts(tx, false, true, syn, pos);
    var (tx1, out1) := StackFrame(tx, false, true, syn);
    FirstAckPasses(tx1, true, ack);
    var out2 := StackFrame(tx1, false, true, ack).1;
    ContextOfTwo(c, out1[0], out1[1]);
    ContextOfTwo(ContextAfter(c, out1), out2[0], out2[1]);
    WholeSecond(out1[0], syn);
    WholeSecond(out2[0], ack);
  }

  lemma WholeSecond(o: Out, pkt: Packet)
    requires !o.Whole?
    ensures WholeFrames([o, Whole(pkt)]) == [Whole(pkt)]
  {
    assert [o, Whole(pkt)][1..] == [Whole(pkt)] && [Whole(pkt)][1..] == [];
    assert WholeFrames([Whole(pkt)]) == [Whole(pkt)] + WholeFrames([]);
  }

  // From any fields: after a SYN at pos, the first acknowledgement and any run in order, the
  // transmit counter is the position reached from pos + 1 on, the other counters stand at
  // pos + 1, the FPGA's context starts at pos + 1 with lwIP's last acknowledgement and its
  // window, and only the two handshake frames and retransmissions reach the wire.
  lemma ConnectionIsExact(tx: Tx, syn: Packet, ack: Packet, pos: nat, gs: seq<LwipSegment>, c: Context)
    requires Handshake(syn, ack, pos) && InOrder((pos + 1) % 0x1_0000_0000, gs)
    ensures var base := (pos + 1) % 0x1_0000_0000;
            var (tx', out) := ConnectionRun(tx, syn, ack, gs);
            && tx'.t == Reached(base, gs) && tx'.localSeq == Low32(tx'.t)
            && tx'.f == tx'.d == tx'.a == base && tx'.rcvWnd == ack.wnd
            && ContextAfter(c, out) == Context(base, LastAckno(base, ack.ackno, gs), ack.wnd)
            && WholeFrames(out) == [Whole(syn), Whole(ack)] + Retransmissions(base, gs)
  {
    var base := (pos + 1) % 0x1_0000_0000;
    HandshakeOut(tx, syn, ack, pos, c);
    var (tx1, out1) := StackFrame(tx, false, true, syn);
    var (tx2, out2) := StackFrame(tx1, false, true, ack);
    var out3 := StackRun(tx2, gs).1;
    assert Low32(base) == base;
    StackRunIsExact(tx2, gs);
    ContextFollows(Context(base, ack.ackno, ack.wnd), tx2, gs);
    ContextConcat(c, out1, out2 + out3);
    ContextConcat(ContextAfter(c, out1), out2, out3);
    WholeFramesHead(out1, out2 + out3);
    WholeFramesHead(out2, out3);
    assert [Whole(syn)] + ([Whole(ack)] + WholeFrames(out3)) == [Whole(syn), Whole(ack)] + WholeFrames(out3);
  }

  // ----- the segments of the peer -----

  // processSynAck on a segment and what the session knows so far.
  function SynAckOutcome(ack: bool, hdrLen: nat, mem: seq<Byte>, mss: Word16, shift: Byte): SynAck.Outcome {
    if !ack then SynAck.Aborted else SynAck.Parse(mem, hdrLen - SynAck.TCP_HDR, SynAck.Learned(mss, shift))
  }

  // The store of tcpSndWnd shifts the window of the segment.
  lemma StoredWindow(wnd: Word16, shift: Byte)
    ensures forall ws :: FastPath.Doublings(ws, wnd, shift) ==>
              wnd * FastPath.Pow2(shift) % TWO32 == ws[shift] % 0x1_0000_0000
    ensures shift <= 14 ==> wnd * FastPath.Pow2(shift) % TWO32 == wnd * FastPath.SCALES[shift]
  {
    forall ws | FastPath.Doublings(ws, wnd, shift) ensures wnd * FastPath.Pow2(shift) == ws[shift] {
      FastPath.ShiftDoubles(ws, wnd, shift);
    }
    if shift <= 14 {
      FastPath.Pow2Table(shift);
      FastPathInvariant.ScaledWindowFits(wnd, shift);
    }
  }

  function Before(ns: seq<nat>, g: RxGate.Gate): RxGate.Gate { g.(inserted := ns + g.inserted) }

  // ----- the session -----

  class EkaDev {
    var excActive: bool
    var globalFastPathBytes: nat
    var globalDummyBytes: nat
  }

  class EkaTcpSess {
    const dev: EkaDev
    var tcpLocalSeqNum: nat
    var tcpRemoteSeqNum: nat
    var tcpRcvWnd: nat
    var tcpSndWnd: nat
    var tcpSndWndShift: Byte
    var mss: Word16
    var realFastPathBytes: nat
    var realDummyBytes: nat
    var realTxDriverBytes: nat
    var realTcpRemoteAckNum: nat
    var tcpRemoteAckNum: nat
    var lastInsertedEmptyAck: nat
    var txLwipBp: bool
    var blocking: bool
    var connectionEstablished: bool

    constructor (dev: EkaDev)
      ensures this.dev == dev && TxState() == Tx(0, 0, 0, 0, 0, 0, 0)
      ensures tcpRemoteAckNum == 0 && lastInsertedEmptyAck == 0 && tcpSndWnd == 0 && tcpSndWndShift == 0 && mss == 0
      ensures !txLwipBp && !blocking && !connectionEstablished
    {
      this.dev := dev;
      tcpLocalSeqNum, tcpRemoteSeqNum, tcpRcvWnd, tcpSndWnd := 0, 0, 0, 0;
      tcpSndWndShift, mss := 0, 0;
      realFastPathBytes, realDummyBytes, realTxDriverBytes, realTcpRemoteAckNum := 0, 0, 0, 0;
      tcpRemoteAckNum, lastInsertedEmptyAck := 0, 0;
      txLwipBp, blocking, connectionEstablished := false, false, false;
    }

    function TxState(): Tx
      reads this
    {
      Tx(tcpLocalSeqNum, tcpRemoteSeqNum, tcpRcvWnd, realFastPathBytes, realDummyBytes, realTxDriverBytes,
         realTcpRemoteAckNum)
    }

    // The bytes between replayed and counted, which lwipDummyWrite must not change.
    function Backlog(): int
      reads this
    {
      realFastPathBytes - realDummyBytes
    }

    method PreSendCheck(len: int, dontWait: bool) returns (rc: int, errno: Errno)
      modifies this`realFastPathBytes, dev`globalFastPathBytes
      ensures !dev.excActive ==> rc == -1 && errno == ENETDOWN
      ensures dev.excActive && len <= 0 ==> rc == 0 && errno == NoError
      ensures dev.excActive && len > 0 ==>
        var ok := Accepts(old(realFastPathBytes), realTcpRemoteAckNum, tcpSndWnd, txLwipBp,
                          old(dev.globalFastPathBytes), dev.globalDummyBytes, len);
        var mustSendAll := blocking && !dontWait && len > FastPath.MAX_PAYLOAD_SIZE;
        && errno == (if !ok then EAGAIN else if mustSendAll then ENOSYS else NoError)
        && rc == (if !ok then 0 else if mustSendAll then -1 else FastPath.PayloadSize(len))
      ensures rc > 0 ==> rc <= len && rc <= 1360 && (rc == len || rc == 1360)
      ensures dev.excActive && len > 0 ==>
        var (f, a, p) := (old(realFastPathBytes), realTcpRemoteAckNum, if len < 1360 then len else 1360);
        && (errno == EAGAIN <==>
              || txLwipBp
              || (if f <= a then 0 else f - a) + p > (if tcpSndWnd <= 2048 then 0 else tcpSndWnd - 2048)
              || (old(dev.globalFastPathBytes) - dev.globalDummyBytes) % 0x1_0000_0000_0000_0000 > 8192)
        && (errno == ENOSYS <==> errno != EAGAIN && blocking && !dontWait && len > 1360)
        && (rc == p <==> errno == NoError) && (rc == -1 <==> errno == ENOSYS)
      ensures var added := if rc > 0 then rc else 0;
        && realFastPathBytes == old(realFastPathBytes) + added
        && dev.globalFastPathBytes == old(dev.globalFastPathBytes) + added
    {
      if !dev.excActive {
        return -1, ENETDOWN;
      }
      if len <= 0 {
        return 0, NoError;
      }
      var payloadSize2send := if len < FastPath.MAX_PAYLOAD_SIZE then len else FastPath.MAX_PAYLOAD_SIZE;
      var unAckedBytes := realFastPathBytes - realTcpRemoteAckNum;
      if unAckedBytes < 0 {
        unAckedBytes := 0;
      }
      var allowedWnd := if tcpSndWnd < FastPath.WND_MARGIN then 0 else tcpSndWnd - FastPath.WND_MARGIN;
      if txLwipBp || unAckedBytes + payloadSize2send > allowedWnd ||
         (dev.globalFastPathBytes - dev.globalDummyBytes) % TWO64 > FastPath.FPGA_IN_FLIGHT_LIMIT {
        return 0, EAGAIN;
      }
      var isBlocking := blocking && !dontWait;
      if isBlocking && payloadSize2send != len {
        return -1, ENOSYS;
      }
      realFastPathBytes := realFastPathBytes + payloadSize2send;
      dev.globalFastPathBytes := dev.globalFastPathBytes + payloadSize2send;
      return payloadSize2send, NoError;
    }

    // lwipDummyWrite, with the answers of lwip_write given in advance. taken is what lwIP got.
    method LwipDummyWrite(len: nat, fromHw: bool, answers: seq<Wrote>) returns (end: WriteEnd, taken: nat)
      requires Honest(answers, len)
      modifies this, dev
      ensures end == WriteLoop(dev.excActive, answers, len)
      ensures dev.excActive == old(dev.excActive)
      ensures TxState() == old(TxState()).(f := realFastPathBytes, d := realDummyBytes)
      ensures var counted := if fromHw then len else 0;
        && realFastPathBytes == old(realFastPathBytes) + counted
        && dev.globalFastPathBytes == old(dev.globalFastPathBytes) + counted
      ensures var replayed := if end.Written? then len else 0;
        && realDummyBytes == old(realDummyBytes) + replayed
        && dev.globalDummyBytes == old(dev.globalDummyBytes) + replayed
      ensures end.Written? ==> !txLwipBp && (dev.excActive ==> taken == len)
      ensures end.Waiting? && answers != [] ==> txLwipBp && taken < len
      ensures end.Written? && fromHw ==> Backlog() == old(Backlog())
      ensures !dev.excActive && answers != [] ==>
        end == if answers[0].n > 0 || answers[0].again then Written else Failed(answers[0].n)
    {
      if fromHw {
        realFastPathBytes := realFastPathBytes + len;
        dev.globalFastPathBytes := dev.globalFastPathBytes + len;
      }
      var sentSize, i, more := 0, 0, true;
      while more && i < |answers|
        invariant 0 <= i <= |answers| && 0 <= sentSize <= len
        invariant more ==> Honest(answers[i..], len - sentSize)
        invariant more ==> WriteLoop(dev.excActive, answers, len) == WriteLoop(dev.excActive, answers[i..], len - sentSize)
        invariant !more ==> WriteLoop(dev.excActive, answers, len).Written? && (dev.excActive ==> sentSize == len)
        invariant more && i > 0 ==> dev.excActive && sentSize < len && txLwipBp
        invariant TxState() == old(TxState()).(f := realFastPathBytes)
        invariant dev.excActive == old(dev.excActive) && dev.globalDummyBytes == old(dev.globalDummyBytes)
        invariant realFastPathBytes == old(realFastPathBytes) + if fromHw then len else 0
        invariant dev.globalFastPathBytes == old(dev.globalFastPathBytes) + if fromHw then len else 0
        decreases |answers| - i
      {
        var w := answers[i];
        assert answers[i..][0] == w && answers[i..][1..] == answers[i + 1..];
        if w.n <= 0 && !w.again {
          return Failed(w.n), sentSize;
        }
        if w.n > 0 {
          sentSize := sentSize + w.n;
        }
        if sentSize != len {
          txLwipBp := true;
        }
        more := dev.excActive && sentSize != len;
        i := i + 1;
      }
      if more {
        return Waiting, sentSize;
      }
      txLwipBp := false;
      realDummyBytes := realDummyBytes + len;
      dev.globalDummyBytes := dev.globalDummyBytes + len;
      return Written, sentSize;
    }

    method SendStackEthFrame(pkt: Packet) returns (out: seq<Out>)
      modifies this
      ensures (TxState(), out) == StackFrame(old(TxState()), connectionEstablished, dev.excActive, pkt)
      ensures connectionEstablished == old(connectionEstablished)
      // A SYN.
      ensures pkt.syn ==>
        var base := (pkt.seqno + 1) % 0x1_0000_0000;
        && TxState() == Tx(base, old(tcpRemoteSeqNum), pkt.wnd, base, base, base, base)
        && out != [] && out[0] == LocalSeqWnd(base) && LeavesWhole(out[1..], dev.excActive, pkt)
      // A FIN.
      ensures !pkt.syn && pkt.fin ==> TxState() == old(TxState()) && LeavesWhole(out, dev.excActive, pkt)
      // The answer to the SYN-ACK.
      ensures !pkt.syn && !pkt.fin && !connectionEstablished ==>
        && TxState() == old(TxState()).(remoteSeq := pkt.ackno, rcvWnd := pkt.wnd)
        && out != [] && out[0] == RemoteSeqWnd(pkt.ackno, pkt.wnd) && LeavesWhole(out[1..], dev.excActive, pkt)
      // A retransmission.
      ensures !pkt.syn && !pkt.fin && connectionEstablished
              && (pkt.seqno - old(tcpLocalSeqNum)) % 0x1_0000_0000 >= 0x8000_0000 ==>
        TxState() == old(TxState()) && LeavesWhole(out, dev.excActive, pkt)
      // A dummy: dropped, but for its acknowledgement.
      ensures !pkt.syn && !pkt.fin && connectionEstablished
              && (pkt.seqno - old(tcpLocalSeqNum)) % 0x1_0000_0000 < 0x8000_0000 ==>
        && TxState() == old(TxState()).(
             remoteSeq := pkt.ackno, localSeq := (pkt.seqno + pkt.payloadLen) % 0x1_0000_0000,
             t := old(realTxDriverBytes) + if pkt.isTcp then pkt.payloadLen else 0)
        && out == if old(tcpRemoteSeqNum) == pkt.ackno then []
                  else [RemoteSeqWnd(pkt.ackno, old(tcpRcvWnd)), EmptyAck(pkt.ackno)]
    {
      var whole := EthFrame(dev.excActive, pkt);
      if pkt.syn {
        tcpLocalSeqNum := Low32(pkt.seqno + 1);
        realTcpRemoteAckNum := Low32(pkt.seqno + 1);
        realFastPathBytes := Low32(pkt.seqno + 1);
        realTxDriverBytes := Low32(pkt.seqno + 1);
        realDummyBytes := Low32(pkt.seqno + 1);
        tcpRcvWnd := pkt.wnd;
        return [LocalSeqWnd(tcpLocalSeqNum)] + whole;
      }
      if pkt.fin {
        return whole;
      }
      if !connectionEstablished {
        tcpRemoteSeqNum := pkt.ackno;
        tcpRcvWnd := pkt.wnd;
        return [RemoteSeqWnd(tcpRemoteSeqNum, tcpRcvWnd)] + whole;
      }
      if TcpSeqLt(pkt.seqno, tcpLocalSeqNum) {
        return whole;
      }
      out := [];
      if tcpRemoteSeqNum != pkt.ackno {
        tcpRemoteSeqNum := pkt.ackno;
        out := [RemoteSeqWnd(tcpRemoteSeqNum, tcpRcvWnd), EmptyAck(pkt.ackno)];
      }
      tcpLocalSeqNum := Low32(pkt.seqno + pkt.payloadLen);
      if pkt.isTcp {
        realTxDriverBytes := realTxDriverBytes + pkt.payloadLen;
      }
    }

    // mem is what follows the fixed TCP header in the received frame.
    method ProcessSynAck(ack: bool, hdrLen: nat, mem: seq<Byte>) returns (outcome: SynAck.Outcome)
      modifies this`mss, this`tcpSndWndShift
      ensures outcome == SynAckOutcome(ack, hdrLen, mem, old(mss), old(tcpSndWndShift))
      // Options follow a header of twenty bytes; without them nothing is learned.
      ensures !ack ==> outcome.Aborted?
      ensures ack && hdrLen <= 20 ==> outcome.Parsed? && mss == old(mss) && tcpSndWndShift == old(tcpSndWndShift)
      ensures ack && hdrLen > 20 ==>
        outcome == SynAck.Parse(mem, hdrLen - 20, SynAck.Learned(old(mss), old(tcpSndWndShift)))
      ensures outcome.Parsed? ==> outcome.learned == SynAck.Learned(mss, tcpSndWndShift)
    {
      if !ack {
        return SynAck.Aborted;
      }
      if hdrLen == SynAck.TCP_HDR {
        return SynAck.Parsed(SynAck.Learned(mss, tcpSndWndShift));
      }
      ghost var all := SynAck.Parse(mem, hdrLen - SynAck.TCP_HDR, SynAck.Learned(mss, tcpSndWndShift));
      var optLen := hdrLen - SynAck.TCP_HDR;
      var endOfOptions, i := false, 0;
      while !endOfOptions && i < optLen
        invariant 0 <= i <= |mem|
        invariant endOfOptions ==> all == SynAck.Parsed(SynAck.Learned(mss, tcpSndWndShift))
        invariant !endOfOptions ==> all == SynAck.Parse(mem[i..], optLen - i, SynAck.Learned(mss, tcpSndWndShift))
        decreases !endOfOptions, |mem| - i
      {
        if i == |mem| {
          return SynAck.Overrun;
        }
        assert mem[i..][0] == mem[i] && mem[i..][1..] == mem[i + 1..];
        if mem[i] == 0 {
          if i != optLen - 1 {
            return SynAck.Aborted;
          }
          endOfOptions := true;
        } else if mem[i] == 1 {
          i := i + 1;
        } else if mem[i] == 2 {
          i := i + 1;
          if i == |mem| {
            return SynAck.Overrun;
          }
          if mem[i] != 4 {
            return SynAck.Aborted;
          }
          i := i + 1;
          if i + 2 > |mem| {
            return SynAck.Overrun;
          }
          assert mem[i - 2..][2] == mem[i] && mem[i - 2..][3] == mem[i + 1] && mem[i - 2..][4..] == mem[i + 2..];
          mss := NetWord(mem[i], mem[i + 1]);
          i := i + 2;
        } else if mem[i] == 3 {
          i := i + 1;
          if i == |mem| {
            return SynAck.Overrun;
          }
          if mem[i] != 3 {
            return SynAck.Aborted;
          }
          i := i + 1;
          if i == |mem| {
            return SynAck.Overrun;
          }
          assert mem[i - 2..][2] == mem[i];
          tcpSndWndShift := mem[i];
          i := i + 1;
          endOfOptions := true;
        } else {
          return SynAck.Aborted;
        }
      }
      return SynAck.Parsed(SynAck.Learned(mss, tcpSndWndShift));
    }

    // updateRx on the fields of a received segment. ts are the values that the loads of
    // realTxDriverBytes find in turn, which lwIP's thread moves meanwhile; open is false when
    // the loop still spins after them.
    method UpdateRx(ackno: nat, wnd: Word16, syn: bool, ack: bool, hdrLen: nat, mem: seq<Byte>, ts: seq<nat>)
      returns (inserted: seq<nat>, open: bool, outcome: SynAck.Outcome)
      requires ackno < TWO32
      modifies this
      ensures tcpRemoteAckNum == ackno
      ensures forall ws :: FastPath.Doublings(ws, wnd, old(tcpSndWndShift)) ==>
                tcpSndWnd == ws[old(tcpSndWndShift)] % 0x1_0000_0000
      ensures old(tcpSndWndShift) <= 14 ==> tcpSndWnd == wnd * FastPath.SCALES[old(tcpSndWndShift)]
      ensures realTcpRemoteAckNum == Seq32To64(old(realTcpRemoteAckNum), old(tcpRemoteAckNum), ackno, 0)
      ensures RxGate.Gate(inserted, lastInsertedEmptyAck, open)
              == RxGate.GateLoop(dev.excActive, realTcpRemoteAckNum, old(lastInsertedEmptyAck), ts)
      ensures TxState() == old(TxState()).(a := realTcpRemoteAckNum)
      ensures outcome == if open && syn then SynAckOutcome(ack, hdrLen, mem, old(mss), old(tcpSndWndShift))
                         else SynAck.Parsed(SynAck.Learned(old(mss), old(tcpSndWndShift)))
      ensures outcome.Parsed? ==> outcome.learned == SynAck.Learned(mss, tcpSndWndShift)
      ensures !open || !syn ==> mss == old(mss) && tcpSndWndShift == old(tcpSndWndShift)
      ensures !dev.excActive || (ts != [] && realTcpRemoteAckNum <= ts[0]) ==> open && inserted == []
    {
      StoreSegment(ackno, wnd);
      inserted, open := HoldBack(ts);
      outcome := SynAck.Parsed(SynAck.Learned(mss, tcpSndWndShift));
      if open && syn {
        outcome := ProcessSynAck(ack, hdrLen, mem);
      }
    }

    method StoreSegment(ackno: nat, wnd: Word16)
      modifies this`tcpRemoteAckNum, this`tcpSndWnd, this`realTcpRemoteAckNum
      ensures tcpRemoteAckNum == ackno
      ensures forall ws :: FastPath.Doublings(ws, wnd, tcpSndWndShift) ==> tcpSndWnd == ws[tcpSndWndShift] % 0x1_0000_0000
      ensures tcpSndWndShift <= 14 ==> tcpSndWnd == wnd * FastPath.SCALES[tcpSndWndShift]
      ensures realTcpRemoteAckNum == Seq32To64(old(realTcpRemoteAckNum), old(tcpRemoteAckNum), ackno, 0)
    {
      var prevTcpRemoteAckNum := tcpRemoteAckNum;
      tcpRemoteAckNum := ackno;
      tcpSndWnd := wnd * FastPath.Pow2(tcpSndWndShift) % TWO32;
      StoredWindow(wnd, tcpSndWndShift);
      realTcpRemoteAckNum := Seq32To64(realTcpRemoteAckNum, prevTcpRemoteAckNum, ackno, 0);
    }

    method HoldBack(ts: seq<nat>) returns (inserted: seq<nat>, open: bool)
      modifies this`lastInsertedEmptyAck
      ensures RxGate.Gate(inserted, lastInsertedEmptyAck, open)
              == RxGate.GateLoop(dev.excActive, realTcpRemoteAckNum, old(lastInsertedEmptyAck), ts)
      ensures !dev.excActive || (ts != [] && realTcpRemoteAckNum <= ts[0]) ==> open && inserted == []
    {
      ghost var all := RxGate.GateLoop(dev.excActive, realTcpRemoteAckNum, lastInsertedEmptyAck, ts);
      inserted, open := [], false;
      var i := 0;
      while dev.excActive && i < |ts| && realTcpRemoteAckNum > ts[i]
        invariant 0 <= i <= |ts|
        invariant all == Before(inserted, RxGate.GateLoop(dev.excActive, realTcpRemoteAckNum, lastInsertedEmptyAck, ts[i..]))
        decreases |ts| - i
      {
        ghost var rest := ts[i..];
        if i + 1 == |ts| {
          return;
        }
        assert rest[0] == ts[i] && rest[1] == ts[i + 1];
        if ts[i + 1] > lastInsertedEmptyAck {
          if i + 2 == |ts| {
            return;
          }
          assert rest[2] == ts[i + 2] && rest[3..] == ts[i + 3..];
          lastInsertedEmptyAck := ts[i + 2];
          inserted := inserted + [lastInsertedEmptyAck];
          i := i + 3;
        } else {
          assert rest[2..] == ts[i + 2..];
          i := i + 2;
        }
      }
      assert i < |ts| ==> ts[i..][0] == ts[i];
      open := !dev.excActive || i < |ts|;
    }
  }
}
