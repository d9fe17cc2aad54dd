// The ring of user reports between the service thread, which pushes feedback packets, and the
// fire report thread, which pops them and goes on reading the popped slot after the lock is
// released. The ring is one block of memory: a copy that is too long runs into the next slot.
module ReportQueue {
  import opened Arith
  import opened Checksum
  import opened Bytes
  import opened Options

  const HDR := 8               // the DMA header
  const DATA := 1528           // the data area of a slot
  const SLOT := 1536
  const MAX_ELEM_SIZE := 1536  // what push accepts
  const Q_ELEMS := 0x1_0000

  // A packet in the feedback channel: push reads its header and its first len bytes.
  datatype Msg = Msg(buf: seq<Byte>, len: nat)

  predicate IsMsg(m: Msg) { HDR <= |m.buf| && m.len <= |m.buf| }

  // n slots; the pointers and the counters are separate, as in the source.
  datatype Ring = Ring(n: nat, mem: seq<Byte>, rdPtr: nat, wrPtr: nat, rdCnt: nat, wrCnt: nat)

  predicate IsRing(r: Ring) {
    r.n > 1 && |r.mem| == r.n * SLOT && r.rdPtr < r.n && r.wrPtr < r.n && r.rdCnt <= r.wrCnt
  }

  // The ways out of push: two are on_error, PastEnd is a write beyond the last slot.
  datatype PushResult = Pushed(r: Ring) | Full | TooLong | PastEnd

  function Next(n: nat, p: nat): (q: nat)
    requires n > 1
    ensures q < n
  {
    (p + 1) % n
  }

  function Push(r: Ring, m: Msg): PushResult
    requires IsRing(r) && IsMsg(m)
  {
    if r.wrCnt - r.rdCnt == r.n - 1 then Full
    else if m.len > MAX_ELEM_SIZE then TooLong
    else
      var w := Next(r.n, r.wrPtr);
      if w * SLOT + HDR + m.len > |r.mem| then PastEnd
      else
        var hdrIn := Put(r.mem, w * SLOT, m.buf[..HDR]);
        Pushed(r.(mem := Put(hdrIn, w * SLOT + HDR, m.buf[..m.len]), wrPtr := w, wrCnt := r.wrCnt + 1))
  }

  datatype PopResult = Popped(r: Ring) | Empty

  function Pop(r: Ring): PopResult
    requires IsRing(r)
  {
    if r.rdCnt == r.wrCnt then Empty else Popped(r.(rdPtr := Next(r.n, r.rdPtr), rdCnt := r.rdCnt + 1))
  }

  // ----- slots -----

  predicate SlotHolds(mem: seq<Byte>, i: nat, m: Msg) {
    && IsMsg(m) && m.len <= DATA && i * SLOT + SLOT <= |mem|
    && mem[i * SLOT..i * SLOT + HDR] == m.buf[..HDR]
    && mem[i * SLOT + HDR..i * SLOT + HDR + m.len] == m.buf[..m.len]
  }

  // A copy stays in its slot if and only if the packet fits the data area, although push
  // lets through eight bytes more; into the last slot such a packet goes past the end.
  lemma CopyStaysInSlot(r: Ring, m: Msg)
    requires IsRing(r) && IsMsg(m) && r.wrCnt - r.rdCnt != r.n - 1
    ensures var w := Next(r.n, r.wrPtr);
            && (m.len <= 1528 <==> w * SLOT + HDR + m.len <= w * SLOT + 1536)
            && (Push(r, m).TooLong? <==> 1536 < m.len)
            && (Push(r, m).PastEnd? <==> w == r.n - 1 && 1528 < m.len <= 1536)
            && (m.len <= 1528 ==> Push(r, m).Pushed?)
  {
  }

  lemma PushFillsSlot(r: Ring, m: Msg)
    requires IsRing(r) && IsMsg(m) && m.len <= DATA && Push(r, m).Pushed?
    ensures IsRing(Push(r, m).r) && SlotHolds(Push(r, m).r.mem, Next(r.n, r.wrPtr), m)
  {
    var at := Next(r.n, r.wrPtr) * SLOT;
    var hdrIn := Put(r.mem, at, m.buf[..HDR]);
    var mem := Push(r, m).r.mem;
    assert mem[at..at + HDR] == hdrIn[at..at + HDR];
  }

  lemma PushKeepsSlot(r: Ring, m: Msg, i: nat, held: Msg)
    requires IsRing(r) && IsMsg(m) && m.len <= DATA && Push(r, m).Pushed?
    requires i < r.n && i != Next(r.n, r.wrPtr) && SlotHolds(r.mem, i, held)
    ensures SlotHolds(Push(r, m).r.mem, i, held)
  {
    var w, lo := Next(r.n, r.wrPtr) * SLOT, i * SLOT;
    var hdrIn := Put(r.mem, w, m.buf[..HDR]);
    assert lo + SLOT <= w || w + SLOT <= lo;
    PutMisses(r.mem, w, m.buf[..HDR], lo, lo + HDR);
    PutMisses(r.mem, w, m.buf[..HDR], lo + HDR, lo + HDR + held.len);
    PutMisses(hdrIn, w + HDR, m.buf[..m.len], lo, lo + HDR);
    PutMisses(hdrIn, w + HDR, m.buf[..m.len], lo + HDR, lo + HDR + held.len);
  }

  // ----- runs -----

  datatype Step = PushMsg(m: Msg) | PopOne

  predicate Sound(steps: seq<Step>) {
    forall i :: 0 <= i < |steps| && steps[i].PushMsg? ==> IsMsg(steps[i].m) && steps[i].m.len <= DATA
  }

  function NewRing(n: nat, mem: seq<Byte>): Ring { Ring(n, mem, 0, 0, 0, 0) }

  // The ring after a list of calls; None if one of them aborts.
  function Run(r: Ring, steps: seq<Step>): (o: Option<Ring>)
    requires IsRing(r) && Sound(steps)
    ensures o.Some? ==> IsRing(o.value) && o.value.n == r.n
    decreases |steps|
  {
    if steps == [] then Some(r)
    else
      var before := Run(r, steps[..|steps| - 1]);
      if before.None? then None else Apply(before.value, steps[|steps| - 1])
  }

  function Apply(r: Ring, c: Step): (o: Option<Ring>)
    requires IsRing(r) && (c.PushMsg? ==> IsMsg(c.m) && c.m.len <= DATA)
    ensures o.Some? ==> IsRing(o.value) && o.value.n == r.n
  {
    match c
    case PushMsg(m) => (match Push(r, m) case Pushed(r') => Some(r') case _ => None)
    case PopOne => (match Pop(r) case Popped(r') => Some(r') case Empty => None)
  }

  // Everything pushed, in order.
  function Sent(steps: seq<Step>): (ms: seq<Msg>)
    requires Sound(steps)
    ensures forall k :: 0 <= k < |ms| ==> IsMsg(ms[k]) && ms[k].len <= DATA
    decreases |steps|
  {
    if steps == [] then []
    else Sent(steps[..|steps| - 1]) + if steps[|steps| - 1].PushMsg? then [steps[|steps| - 1].m] else []
  }

  // The k-th packet is in slot k modulo n, from the last one popped to the last one pushed.
  predicate InSlot(r: Ring, sent: seq<Msg>, k: nat)
    requires r.n > 1
  {
    0 < k <= |sent| && SlotHolds(r.mem, k % r.n, sent[k - 1])
  }

  predicate Fifo(r: Ring, sent: seq<Msg>) {
    && IsRing(r) && r.wrCnt == |sent| && r.wrCnt - r.rdCnt < r.n
    && r.rdPtr == r.rdCnt % r.n && r.wrPtr == r.wrCnt % r.n
    && forall k :: 0 < k && r.rdCnt <= k <= r.wrCnt ==> InSlot(r, sent, k)
  }

  lemma NextIsMod(n: nat, k: nat)
    requires n > 1
    ensures Next(n, k % n) == (k + 1) % n
  {
    var q, p := k / n, k % n;
    assert k == q * n + p;
    if p + 1 < n {
      ModUnique(k + 1, n, q, p + 1);
      ModUnique(p + 1, n, 0, p + 1);
    } else {
      assert (q + 1) * n == q * n + n;
      ModUnique(k + 1, n, q + 1, 0);
      ModUnique(p + 1, n, 1, 0);
    }
  }

  // Fewer than n numbers in a row have different slots.
  lemma SlotsDiffer(n: nat, a: nat, b: nat)
    requires n > 1 && a < b < a + n
    ensures a % n != b % n
  {
    var q, p := a / n, b / n;
    assert a == q * n + a % n && b == p * n + b % n;
    if a % n == b % n {
      assert (p - q) * n == b - a;
      if p > q {
        MulAtLeast(p - q, n);
      }
      assert false;
    }
  }

  lemma PushKeepsFifo(r: Ring, sent: seq<Msg>, m: Msg)
    requires Fifo(r, sent) && IsMsg(m) && m.len <= DATA
    ensures Push(r, m).Full? <==> r.wrCnt - r.rdCnt == r.n - 1
    ensures !Push(r, m).Full? ==> Push(r, m).Pushed? && Fifo(Push(r, m).r, sent + [m])
  {
    if r.wrCnt - r.rdCnt != r.n - 1 {
      CopyStaysInSlot(r, m);
      NextIsMod(r.n, r.wrCnt);
      PushFillsSlot(r, m);
      var r' := Push(r, m).r;
      forall k | 0 < k && r'.rdCnt <= k <= r'.wrCnt ensures InSlot(r', sent + [m], k) {
        if k <= r.wrCnt {
          assert InSlot(r, sent, k);
          SlotsDiffer(r.n, k, r.wrCnt + 1);
          PushKeepsSlot(r, m, k % r.n, sent[k - 1]);
        }
      }
    }
  }

  lemma PopKeepsFifo(r: Ring, sent: seq<Msg>)
    requires Fifo(r, sent) && Pop(r).Popped?
    ensures Fifo(Pop(r).r, sent)
  {
    NextIsMod(r.n, r.rdCnt);
    var r' := Pop(r).r;
    forall k | 0 < k && r'.rdCnt <= k <= r'.wrCnt ensures InSlot(r', sent, k) {
      assert InSlot(r, sent, k);
    }
  }

  // Over every run the ring is a FIFO of at most n - 1 packets: what is still to be popped
  // is what was pushed and not popped, in order, and the packet popped last stays intact.
  lemma {:induction false} RunIsFifo(r: Ring, steps: seq<Step>)
    requires Fifo(r, []) && r.rdCnt == 0 && Sound(steps) && Run(r, steps).Some?
    ensures Fifo(Run(r, steps).value, Sent(steps))
    decreases |steps|
  {
    if steps != [] {
      var front, last := steps[..|steps| - 1], steps[|steps| - 1];
      RunUnfolds(r, steps);
      RunIsFifo(r, front);
      var before := Run(r, front).value;
      StepKeepsFifo(before, Sent(front), last);
    }
  }

  lemma RunUnfolds(r: Ring, steps: seq<Step>)
    requires IsRing(r) && Sound(steps) && steps != []
    ensures var front, last := steps[..|steps| - 1], steps[|steps| - 1];
            && Sound(front)
            && Sent(steps) == (if last.PushMsg? then Sent(front) + [last.m] else Sent(front))
            && Run(r, steps) == if Run(r, front).None? then None else Apply(Run(r, front).value, last)
  {
  }

  lemma StepKeepsFifo(r: Ring, sent: seq<Msg>, c: Step)
    requires Fifo(r, sent) && (c.PushMsg? ==> IsMsg(c.m) && c.m.len <= DATA) && Apply(r, c).Some?
    ensures Fifo(Apply(r, c).value, if c.PushMsg? then sent + [c.m] else sent)
  {
    match c
    case PushMsg(m) => PushKeepsFifo(r, sent, m);
    case PopOne => PopKeepsFifo(r, sent);
  }

  // A run aborts, at its last step, only on a push into a ring that holds n - 1 packets or on
  // a pop from an empty one.
  lemma AbortsOnlyAtTheEnds(r: Ring, steps: seq<Step>, c: Step)
    requires Fifo(r, []) && r.rdCnt == 0 && Sound(steps + [c]) && Sound(steps) && Run(r, steps).Some?
    ensures var held := |Sent(steps)| - Run(r, steps).value.rdCnt;
            Run(r, steps + [c]).None? <==> if c.PushMsg? then held == r.n - 1 else held == 0
  {
    RunIsFifo(r, steps);
    assert (steps + [c])[..|steps|] == steps;
    if c.PushMsg? {
      assert (steps + [c])[|steps|] == c;
      PushKeepsFifo(Run(r, steps).value, Sent(steps), c.m);
    }
  }

  // ----- pairing with fire reports -----

  // The index field of the DMA header.
  function IndexOf(buf: seq<Byte>): nat
    requires HDR <= |buf|
  {
    buf[3] as int + 0x100 * buf[4] as int + 0x1_0000 * buf[5] as int + 0x100_0000 * buf[6] as int
  }

  // Behind type and length, lowest byte first.
  lemma IndexIsRead(buf: seq<Byte>, index: nat)
    requires HDR <= |buf|
    requires buf[3] == index % 0x100 && buf[4] == index / 0x100 % 0x100
    requires buf[5] == index / 0x100 / 0x100 % 0x100 && buf[6] as int == index / 0x100 / 0x100 / 0x100
    ensures IndexOf(buf) == index
  {
    var q1 := index / 0x100;
    var q2 := q1 / 0x100;
    assert index == 0x100 * q1 + buf[3] && q1 == 0x100 * q2 + buf[4] && q2 == 0x100 * buf[6] as int + buf[5];
  }

  // The header that pushFiredPkt reads through the pointer it got from pop.
  function PoppedHeader(r: Ring): seq<Byte>
    requires IsRing(r)
  {
    r.mem[r.rdPtr * SLOT..r.rdPtr * SLOT + HDR]
  }

  // At any moment after the k-th pop and before the next one, whatever was pushed in
  // between, the header read through the pointer is that of the k-th packet pushed. So the
  // index check fails if and only if the k-th report is not the one of the k-th packet, and
  // never fails when reports and packets come in the same order.
  lemma CheckComparesInOrder(r: Ring, steps: seq<Step>, reports: seq<nat>)
    requires Fifo(r, []) && r.rdCnt == 0 && Sound(steps) && Run(r, steps).Some?
    requires 0 < Run(r, steps).value.rdCnt <= |reports|
    ensures var now := Run(r, steps).value;
            && now.rdCnt <= |Sent(steps)|
            && PoppedHeader(now) == Sent(steps)[now.rdCnt - 1].buf[..HDR]
            && (IndexOf(PoppedHeader(now)) == reports[now.rdCnt - 1] <==>
                  IndexOf(Sent(steps)[now.rdCnt - 1].buf) == reports[now.rdCnt - 1])
            && ((forall k :: 0 <= k < |reports| && k < |Sent(steps)| ==>
                   IndexOf(Sent(steps)[k].buf) == reports[k]) ==>
                  IndexOf(PoppedHeader(now)) == reports[now.rdCnt - 1])
  {
    RunIsFifo(r, steps);
    var now := Run(r, steps).value;
    assert InSlot(now, Sent(steps), now.rdCnt);
  }

  // ----- the queue as an object -----

  class EkaUserReportQ {
    const qElem: array<Byte>
    var rdPtr: nat
    var wrPtr: nat
    var rdCnt: nat
    var wrCnt: nat

    function View(): Ring
      reads this, qElem
    {
      Ring(Q_ELEMS, qElem[..], rdPtr, wrPtr, rdCnt, wrCnt)
    }

    predicate Valid()
      reads this, qElem
    {
      IsRing(View())
    }

    constructor ()
      ensures fresh(qElem) && Valid() && View() == NewRing(0x1_0000, seq(0x1_0000 * 1536, _ => 0))
      ensures Fifo(View(), [])
    {
      qElem := new Byte[Q_ELEMS * SLOT](_ => 0);
      rdPtr, wrPtr, rdCnt, wrCnt := 0, 0, 0, 0;
    }

    method IsEmpty() returns (empty: bool)
      requires Valid()
      ensures empty <==> Pop(View()).Empty?
    {
      return wrCnt - rdCnt == 0;
    }

    // slot is the element returned; on any other result than Pushed the source is gone.
    method PushElem(m: Msg) returns (res: PushResult, slot: nat)
      requires Valid() && IsMsg(m)
      modifies this, qElem
      ensures res == Push(old(View()), m)
      ensures res.Pushed? ==> View() == res.r && slot == wrPtr
    {
      ghost var was := View();
      if wrCnt - rdCnt == Q_ELEMS - 1 {
        return Full, 0;
      }
      if m.len > MAX_ELEM_SIZE {
        return TooLong, 0;
      }
      var w := Next(Q_ELEMS, wrPtr);
      if w * SLOT + HDR + m.len > qElem.Length {
        return PastEnd, 0;
      }
      wrPtr := w;
      CopyIn(qElem, wrPtr * SLOT, m.buf[..HDR]);
      CopyIn(qElem, wrPtr * SLOT + HDR, m.buf[..m.len]);
      wrCnt := wrCnt + 1;
      return Pushed(View()), wrPtr;
    }

    method PopElem() returns (res: PopResult, slot: nat)
      requires Valid()
      modifies this
      ensures res == Pop(old(View()))
      ensures res.Popped? ==> View() == res.r && slot == rdPtr
      ensures res.Empty? ==> View() == old(View())
    {
      var empty := IsEmpty();
      if empty {
        return Empty, 0;
      }
      rdPtr := Next(Q_ELEMS, rdPtr);
      rdCnt := rdCnt + 1;
      return Popped(View()), rdPtr;
    }
  }
}
