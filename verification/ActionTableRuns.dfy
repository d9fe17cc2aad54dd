// What every run of opens, closes, joins and allocations keeps of the tables.
module ActionTableRuns {
  import opened Arith
  import opened EpmRegion
  import opened ActionTable

  // The calls that have no reason to abort never do, and these are the only reasons left.
  predicate HonestAbort(c: Step, why: Why) {
    match c
    case Open(_) => why.NoFreeSession?
    case McJoin(_, _, _, _) => why.ChannelFull? || why.CoreFull? || why.NoRegion?
    case AllocateAction => why.OutOfActions?
    case _ => false
  }

  // ----- sessions -----

  lemma MakeKeeps(t: Regions, s: State, i: nat)
    requires Core(t, s) && i < SESSIONS && s.sess[i].Free?
    ensures var o := MakeSession(t, s, i);
            o.Done? && o.s == s.(slots := o.s.slots, sess := s.sess[i := Live]) && Core(t, o.s) && o.ret == i
  {
    assert SlotRight(t, s, TCP_TX_FULL_PKT, i) && SlotRight(t, s, TCP_TX_EMPTY_ACK, i);
    AddToFree(t, s.created, s.slots, SessionKind(i), i, TCP_TX_FULL_PKT);
    var one := AddAction(t, s.created, s.slots, SessionKind(i), i, TCP_TX_FULL_PKT).slots;
    assert At(t, one, TCP_TX_EMPTY_ACK, i) == At(t, s.slots, TCP_TX_EMPTY_ACK, i);
    AddToFree(t, s.created, one, TcpEmptyAck, i, TCP_TX_EMPTY_ACK);
    var s' := MakeSession(t, s, i).s;
    forall r: nat, l: nat | IsLocal(t, r, l) ensures SlotRight(t, s', r, l) {
      assert SlotRight(t, s, r, l);
      assert At(t, s'.slots, r, l) == if r == TCP_TX_EMPTY_ACK && l == i then Occupied(TcpEmptyAck) else At(t, one, r, l);
    }
  }

  lemma DropKeeps(t: Regions, s: State, i: nat, next: SessState)
    requires Core(t, s) && i < SESSIONS && !next.Live?
    ensures var s' := DropSession(t, s, i, next);
            s' == s.(slots := s'.slots, sess := s.sess[i := next]) && Core(t, s')
  {
    DeleteOwn(t, s.slots, i, TCP_TX_FULL_PKT);
    var one := DeleteAction(t, s.slots, i, TCP_TX_FULL_PKT);
    DeleteOwn(t, one, i, TCP_TX_EMPTY_ACK);
    var s' := DropSession(t, s, i, next);
    forall r: nat, l: nat | IsLocal(t, r, l) ensures SlotRight(t, s', r, l) {
      assert SlotRight(t, s, r, l);
      assert At(t, s'.slots, r, l) == if r == TCP_TX_EMPTY_ACK && l == i then NoAction else At(t, one, r, l);
    }
  }

  // A session that is not live can change its state without touching the slots.
  lemma EndKeeps(t: Regions, s: State, i: nat)
    requires Core(t, s) && i < SESSIONS && !s.sess[i].Live?
    ensures Core(t, s.(sess := s.sess[i := Free]))
  {
    forall r: nat, l: nat | IsLocal(t, r, l) ensures SlotRight(t, s.(sess := s.sess[i := Free]), r, l) {
      assert SlotRight(t, s, r, l);
    }
  }

  lemma UpKeeps(t: Regions, s: State, up: seq<bool>)
    requires Core(t, s) && |up| == CORES
    ensures Core(t, s.(up := up))
  {
    forall r: nat, l: nat | IsLocal(t, r, l) ensures SlotRight(t, s.(up := up), r, l) {
      assert SlotRight(t, s, r, l);
    }
  }

  // Only session i may differ.
  predicate SameSessions(a: seq<SessState>, b: seq<SessState>, i: nat) {
    |a| == |b| && forall j :: 0 <= j < |a| && j != i ==> a[j] == b[j]
  }

  lemma BringUpKeeps(t: Regions, s: State, c: nat)
    requires Inv(t, s) && c < CORES
    ensures var o := BringUp(t, s, c);
            && o.Done? && Inv(t, o.s) && o.s.nActions == s.nActions
            && (forall k :: 0 <= k < CONTROL_SESS_ID ==> IsTaken(o.s.sess, c, k) == IsTaken(s.sess, c, k))
            && SameSessions(s.sess, o.s.sess, c * SESSIONS_PER_CORE + CONTROL_SESS_ID)
  {
    if !s.up[c] {
      var i := c * SESSIONS_PER_CORE + CONTROL_SESS_ID;
      MakeKeeps(t, s, i);
      UpKeeps(t, MakeSession(t, s, i).s, s.up[c := true]);
    }
  }

  lemma AddSessionKeeps(t: Regions, s: State, c: nat, k: nat)
    requires Inv(t, s) && c < CORES && k < CONTROL_SESS_ID && !IsTaken(s.sess, c, k)
    ensures var o := MakeSession(t, s, c * SESSIONS_PER_CORE + k);
            && o.Done? && Inv(t, o.s) && o.s.nActions == s.nActions
            && o.ret == c * SESSIONS_PER_CORE + k && o.s.sess == s.sess[c * SESSIONS_PER_CORE + k := Live]
  {
    MakeKeeps(t, s, c * SESSIONS_PER_CORE + k);
  }

  predicate Opened(before: seq<SessState>, after: seq<SessState>, c: nat, i: int)
    requires |before| == |after| == SESSIONS && c < CORES
  {
    && c * SESSIONS_PER_CORE <= i < c * SESSIONS_PER_CORE + CONTROL_SESS_ID
    && before[i].Free? && after[i].Live?
    && SameSessions(before[i := Live], after, c * SESSIONS_PER_CORE + CONTROL_SESS_ID)
  }

  lemma IsOpened(before: seq<SessState>, up: seq<SessState>, c: nat, k: nat)
    requires |before| == |up| == SESSIONS && c < CORES && k < CONTROL_SESS_ID && !IsTaken(up, c, k)
    requires SameSessions(before, up, c * SESSIONS_PER_CORE + CONTROL_SESS_ID)
    ensures Opened(before, up[c * SESSIONS_PER_CORE + k := Live], c, c * SESSIONS_PER_CORE + k)
  {
  }

  lemma FreeSessionKeeps(t: Regions, s: State, c: nat)
    requires Inv(t, s) && c < CORES
    ensures var k := FreeSession(s.sess, c, 0);
            && (k == CONTROL_SESS_ID <==> forall j :: 0 <= j < CONTROL_SESS_ID ==> IsTaken(s.sess, c, j))
            && (k < CONTROL_SESS_ID ==>
                  var o := MakeSession(t, s, c * SESSIONS_PER_CORE + k);
                  && o.Done? && Inv(t, o.s) && o.s.nActions == s.nActions
                  && o.ret == c * SESSIONS_PER_CORE + k && o.s.sess == s.sess[c * SESSIONS_PER_CORE + k := Live])
  {
    var k := FreeSession(s.sess, c, 0);
    if k < CONTROL_SESS_ID {
      AddSessionKeeps(t, s, c, k);
    }
  }

  // excSocket aborts if and only if the core's 31 sessions are all taken; otherwise it makes
  // a free one of them live.
  lemma OpenKeeps(t: Regions, s: State, c: nat)
    requires Inv(t, s) && c < CORES
    ensures var o := OpenSocket(t, s, c);
            && (o.Abort? <==> forall k :: 0 <= k < CONTROL_SESS_ID ==> IsTaken(s.sess, c, k))
            && (o.Abort? ==> o.why.NoFreeSession?)
            && (o.Done? ==> Inv(t, o.s) && o.s.nActions == s.nActions && Opened(s.sess, o.s.sess, c, o.ret))
  {
    BringUpKeeps(t, s, c);
    var up := BringUp(t, s, c).s;
    FreeSessionKeeps(t, up, c);
    var k := FreeSession(up.sess, c, 0);
    if k < CONTROL_SESS_ID {
      IsOpened(s.sess, up.sess, c, k);
    }
  }

  // ----- joins -----

  // The state after a join that makes a new entry.
  function Joined(s: State, slots: seq<Slot>, region: nat, core: nat, ip: nat, port: nat): State
    requires |s.atCh| == TOTAL && |s.atCore| == MAX_IGMP_LANES && region < TOTAL && core < CORES
  {
    var n := s.atCh[region];
    s.(slots := slots, entries := s.entries + [Entry(region, core, ip, port, n)],
       atCh := s.atCh[region := n + 1], atCore := s.atCore[core := s.atCore[core] + 1])
  }

  lemma OwnsAppend(es: seq<Entry>, e: Entry, native: seq<bool>, r: nat, l: nat)
    ensures JoinOwns(es + [e], native, r, l) <==> JoinOwns(es, native, r, l) || OwnedBy(e, native, r, l)
  {
    var more := es + [e];
    assert more[|es|] == e && forall i :: 0 <= i < |es| ==> more[i] == es[i];
  }

  lemma CountWithLast(es: seq<Entry>, i: nat)
    requires i < |es|
    ensures CountRegion(es[..i + 1], es[i].region) == CountRegion(es[..i], es[i].region) + 1
  {
    var upTo := es[..i + 1];
    assert upTo[..i] == es[..i] && upTo[i] == es[i];
  }

  lemma PerChBelow(es: seq<Entry>, i: nat)
    requires EntriesRight(es) && i < |es|
    ensures es[i].perCh < CountRegion(es, es[i].region)
  {
    CountWithLast(es, i);
    CountMonotone(es, i + 1, |es|, es[i].region);
    assert es[..|es|] == es;
  }

  // A region's entries so far own only the actions below twice their number.
  lemma OwnsBelow(es: seq<Entry>, native: seq<bool>, r: nat, l: nat)
    requires EntriesRight(es) && JoinOwns(es, native, r, l)
    ensures l < 2 * CountRegion(es, r)
  {
    var i :| 0 <= i < |es| && OwnedBy(es[i], native, r, l);
    PerChBelow(es, i);
  }

  lemma {:induction false} CountMonotone(es: seq<Entry>, m: nat, n: nat, region: nat)
    requires m <= n <= |es|
    ensures CountRegion(es[..m], region) <= CountRegion(es[..n], region)
    decreases n
  {
    if m < n {
      CountMonotone(es, m, n - 1, region);
      assert es[..n][..n - 1] == es[..n - 1];
    }
  }

  lemma PairIsFree(t: Regions, s: State, region: nat, l: nat)
    requires Core(t, s) && JoinsRight(s) && IsJoinRegion(region)
    requires l / 2 == s.atCh[region] < MAX_ENTRIES_PER_LANE
    ensures IsLocal(t, region, l) && At(t, s.slots, region, l) == NoAction
  {
    assert SlotRight(t, s, region, l);
    if JoinOwns(s.entries, s.native, region, l) {
      OwnsBelow(s.entries, s.native, region, l);
      assert false;
    }
  }

  lemma PairAdded(t: Regions, s: State, region: nat, n: nat)
    requires Sized(t, s) && region < TOTAL && s.created[region]
    requires IsLocal(t, region, 2 * n) && At(t, s.slots, region, 2 * n).NoAction?
    requires IsLocal(t, region, 2 * n + 1) && At(t, s.slots, region, 2 * n + 1).NoAction?
    ensures var o := AddPair(t, s.created, s.slots, 2 * n, region);
            && o.Slots? && |o.slots| == |s.slots|
            && forall r: nat, l: nat :: IsLocal(t, r, l) ==>
                 At(t, o.slots, r, l) == if r == region && l / 2 == n then Slot.Occupied(Igmp) else At(t, s.slots, r, l)
  {
    AddToFree(t, s.created, s.slots, Igmp, 2 * n, region);
    var one := AddAction(t, s.created, s.slots, Igmp, 2 * n, region).slots;
    assert At(t, one, region, 2 * n + 1) == At(t, s.slots, region, 2 * n + 1);
    AddToFree(t, s.created, one, Igmp, 2 * n + 1, region);
    var two := AddPair(t, s.created, s.slots, 2 * n, region).slots;
    forall r: nat, l: nat | IsLocal(t, r, l)
      ensures At(t, two, r, l) == if r == region && l / 2 == n then Slot.Occupied(Igmp) else At(t, s.slots, r, l)
    {
      assert At(t, two, r, l) == if r == region && l == 2 * n + 1 then Slot.Occupied(Igmp) else At(t, one, r, l);
      assert l / 2 == n <==> l == 2 * n || l == 2 * n + 1;
    }
  }

  lemma PairKeeps(t: Regions, s: State, region: nat, core: nat, ip: nat, port: nat)
    requires Core(t, s) && JoinsRight(s) && IsJoinRegion(region) && s.created[region]
    requires core < CORES && s.native[core] && s.atCh[region] < MAX_ENTRIES_PER_LANE
    ensures var o := AddPair(t, s.created, s.slots, 2 * s.atCh[region], region);
            o.Slots? && Core(t, Joined(s, o.slots, region, core, ip, port))
  {
    var n := s.atCh[region];
    PairIsFree(t, s, region, 2 * n);
    PairIsFree(t, s, region, 2 * n + 1);
    PairAdded(t, s, region, n);
    var slots := AddPair(t, s.created, s.slots, 2 * s.atCh[region], region).slots;
    var s' := Joined(s, slots, region, core, ip, port);
    forall r: nat, l: nat | IsLocal(t, r, l) ensures SlotRight(t, s', r, l) {
      assert SlotRight(t, s, r, l);
      OwnsAppend(s.entries, Entry(region, core, ip, port, s.atCh[region]), s.native, r, l);
    }
  }

  // An entry whose core sends no joins takes no actions.
  lemma NoPairKeeps(t: Regions, s: State, region: nat, core: nat, ip: nat, port: nat)
    requires Core(t, s) && IsJoinRegion(region) && core < CORES && !s.native[core]
    ensures Core(t, Joined(s, s.slots, region, core, ip, port))
  {
    forall r: nat, l: nat | IsLocal(t, r, l) ensures SlotRight(t, Joined(s, s.slots, region, core, ip, port), r, l) {
      assert SlotRight(t, s, r, l);
      OwnsAppend(s.entries, Entry(region, core, ip, port, s.atCh[region]), s.native, r, l);
    }
  }

  lemma EntriesKeep(es: seq<Entry>, e: Entry)
    requires EntriesRight(es) && e.perCh == CountRegion(es, e.region)
    requires forall i :: 0 <= i < |es| ==> !IsMy(es[i], e.core, e.ip, e.port)
    ensures EntriesRight(es + [e])
    ensures forall r :: CountRegion(es + [e], r) == CountRegion(es, r) + if e.region == r then 1 else 0
  {
    var more := es + [e];
    assert more[..|more| - 1] == es;
    forall i | 0 <= i < |more| ensures more[i].perCh == CountRegion(more[..i], more[i].region) {
      assert more[..i] == es[..i];
    }
  }

  predicate HasRoom(s: State, region: nat, core: nat, ip: nat, port: nat)
    requires |s.atCh| == TOTAL && |s.atCore| == MAX_IGMP_LANES && region < TOTAL && core < CORES
  {
    && s.atCh[region] < MAX_ENTRIES_PER_LANE && s.atCore[core] < MAX_ENTRIES_PER_LANE
    && FindEntry(s.entries, core, ip, port) == |s.entries|
  }

  lemma CountsKeep(s: State, slots: seq<Slot>, region: nat, core: nat, ip: nat, port: nat)
    requires |s.atCh| == TOTAL && |s.atCore| == MAX_IGMP_LANES && JoinsRight(s)
    requires region < TOTAL && core < CORES && HasRoom(s, region, core, ip, port)
    ensures JoinsRight(Joined(s, slots, region, core, ip, port))
  {
    EntriesKeep(s.entries, Entry(region, core, ip, port, s.atCh[region]));
  }

  // The parts of a state that joins change, put together again.
  lemma InvAfterJoin(t: Regions, s: State, s': State)
    requires Inv(t, s) && Core(t, s') && JoinsRight(s')
    requires s'.nActions == s.nActions && s'.up == s.up && s'.sess == s.sess
    ensures Inv(t, s')
  {
  }

  lemma NativeJoinKeeps(t: Regions, s: State, region: nat, core: nat, ip: nat, port: nat)
    requires Inv(t, s) && IsJoinRegion(region) && core < CORES && s.native[core]
    requires s.created[region] && HasRoom(s, region, core, ip, port)
    ensures var made := AddPair(t, s.created, s.slots, 2 * s.atCh[region], region);
            made.Slots? && Inv(t, Joined(s, made.slots, region, core, ip, port))
  {
    PairKeeps(t, s, region, core, ip, port);
    var slots := AddPair(t, s.created, s.slots, 2 * s.atCh[region], region).slots;
    CountsKeep(s, slots, region, core, ip, port);
    InvAfterJoin(t, s, Joined(s, slots, region, core, ip, port));
  }

  lemma SilentJoinKeeps(t: Regions, s: State, region: nat, core: nat, ip: nat, port: nat)
    requires Inv(t, s) && IsJoinRegion(region) && core < CORES && !s.native[core]
    requires HasRoom(s, region, core, ip, port)
    ensures Inv(t, Joined(s, s.slots, region, core, ip, port))
  {
    NoPairKeeps(t, s, region, core, ip, port);
    CountsKeep(s, s.slots, region, core, ip, port);
    InvAfterJoin(t, s, Joined(s, s.slots, region, core, ip, port));
  }

  // mcJoin keeps the tables, and aborts only for want of room or of a region.
  lemma JoinKeeps(t: Regions, s: State, region: nat, core: nat, ip: nat, port: nat)
    requires Inv(t, s) && IsJoinRegion(region) && core < CORES
    ensures var o := Join(t, s, region, core, ip, port);
            if o.Abort? then HonestAbort(McJoin(region, core, ip, port), o.why)
            else Inv(t, o.s) && o.s.nActions == s.nActions
  {
    assert s.atCh[region] <= MAX_ENTRIES_PER_LANE && s.atCore[core] <= MAX_ENTRIES_PER_LANE;
    if HasRoom(s, region, core, ip, port) {
      if !s.native[core] {
        SilentJoinKeeps(t, s, region, core, ip, port);
      } else if s.created[region] {
        NativeJoinKeeps(t, s, region, core, ip, port);
      }
    }
  }

  lemma TakenIsRefused(t: Regions, created: seq<bool>, slots: seq<Slot>, k: Kind, l: nat, r: nat)
    requires r < |t| == |created| && created[r] && KindFits(k, r)
    requires IsLocal(t, r, l) && |slots| == ActionsBefore(t, |t|) && At(t, slots, r, l).Occupied?
    ensures AddAction(t, created, slots, k, l, r) == Refused(SlotTaken)
  {
    IndexRoundTrip(t, r, l, 0);
    SanityCheckIsWeak(t, r, l);
  }

  // A session cannot be made any more once a slot of it is taken.
  lemma SessionBlocked(t: Regions, s: State, region: nat, i: nat)
    requires Sized(t, s) && s.created[TCP_TX_FULL_PKT] && s.created[TCP_TX_EMPTY_ACK] && i < SESSIONS
    requires region == TCP_TX_FULL_PKT || region == TCP_TX_EMPTY_ACK
    requires At(t, s.slots, region, i).Occupied?
    requires region == TCP_TX_FULL_PKT || At(t, s.slots, TCP_TX_FULL_PKT, i).NoAction?
    ensures MakeSession(t, s, i) == Abort(SlotTaken)
  {
    if region == TCP_TX_FULL_PKT {
      TakenIsRefused(t, s.created, s.slots, SessionKind(i), i, TCP_TX_FULL_PKT);
    } else {
      AddToFree(t, s.created, s.slots, SessionKind(i), i, TCP_TX_FULL_PKT);
      var one := AddAction(t, s.created, s.slots, SessionKind(i), i, TCP_TX_FULL_PKT).slots;
      assert At(t, one, TCP_TX_EMPTY_ACK, i) == At(t, s.slots, TCP_TX_EMPTY_ACK, i);
      TakenIsRefused(t, s.created, one, TcpEmptyAck, i, TCP_TX_EMPTY_ACK);
    }
  }

  // The pair is refused if and only if one of its slots is taken.
  lemma PairRefused(t: Regions, s: State, region: nat, n: nat)
    requires Sized(t, s) && region < TOTAL && s.created[region]
    requires IsLocal(t, region, 2 * n) && IsLocal(t, region, 2 * n + 1)
    requires At(t, s.slots, region, 2 * n).Occupied? || At(t, s.slots, region, 2 * n + 1).Occupied?
    ensures AddPair(t, s.created, s.slots, 2 * n, region) == Refused(SlotTaken)
  {
    if At(t, s.slots, region, 2 * n).Occupied? {
      TakenIsRefused(t, s.created, s.slots, Igmp, 2 * n, region);
    } else {
      AddToFree(t, s.created, s.slots, Igmp, 2 * n, region);
      var one := AddAction(t, s.created, s.slots, Igmp, 2 * n, region).slots;
      assert At(t, one, region, 2 * n + 1) == At(t, s.slots, region, 2 * n + 1);
      TakenIsRefused(t, s.created, one, Igmp, 2 * n + 1, region);
    }
  }

  // mcJoin does not refuse the two regions of the sessions. In every state that a run without
  // such joins reaches, the n-th join there aborts the program if and only if session 2n or
  // 2n + 1 is live; otherwise it takes their actions, and neither can be made any more.
  lemma JoinAmongSessions(t: Regions, s: State, region: nat, core: nat, ip: nat, port: nat)
    requires Inv(t, s) && core < CORES && s.native[core]
    requires region == TCP_TX_FULL_PKT || region == TCP_TX_EMPTY_ACK
    requires HasRoom(s, region, core, ip, port)
    ensures var n, o := s.atCh[region], Join(t, s, region, core, ip, port);
            && 2 * n + 1 < SESSIONS
            && (o.Abort? <==> s.sess[2 * n].Live? || s.sess[2 * n + 1].Live?)
            && (o.Abort? ==> o.why.SlotTaken?)
            && (o.Done? ==> o.s == Joined(s, o.s.slots, region, core, ip, port)
                            && MakeSession(t, o.s, 2 * n) == MakeSession(t, o.s, 2 * n + 1) == Abort(SlotTaken))
  {
    var n := s.atCh[region];
    assert SlotRight(t, s, region, 2 * n) && SlotRight(t, s, region, 2 * n + 1);
    assert SlotRight(t, s, TCP_TX_FULL_PKT, 2 * n) && SlotRight(t, s, TCP_TX_FULL_PKT, 2 * n + 1);
    if s.sess[2 * n].Live? || s.sess[2 * n + 1].Live? {
      PairRefused(t, s, region, n);
    } else {
      PairAdded(t, s, region, n);
      var s' := Join(t, s, region, core, ip, port).s;
      SessionBlocked(t, s', region, 2 * n);
      SessionBlocked(t, s', region, 2 * n + 1);
    }
  }

  // So the next socket whose session is one of the two aborts the program.
  lemma JoinBlocksSocket(t: Regions, s: State, region: nat, core: nat, ip: nat, port: nat, c: nat)
    requires Inv(t, s) && core < CORES && s.native[core] && c < CORES && s.up[c]
    requires region == TCP_TX_FULL_PKT || region == TCP_TX_EMPTY_ACK
    requires HasRoom(s, region, core, ip, port) && Join(t, s, region, core, ip, port).Done?
    requires FreeSession(s.sess, c, 0) < CONTROL_SESS_ID
    requires (c * SESSIONS_PER_CORE + FreeSession(s.sess, c, 0)) / 2 == s.atCh[region]
    ensures OpenSocket(t, Join(t, s, region, core, ip, port).s, c) == Abort(SlotTaken)
  {
    JoinAmongSessions(t, s, region, core, ip, port);
  }

  // ----- actions of the user -----

  lemma AllocateKeeps(t: Regions, s: State)
    requires Inv(t, s)
    ensures var o := Allocate(t, s);
            if o.Abort? then o.why.OutOfActions? && s.nActions == t[EFC_REGION].nActions
            else Inv(t, o.s) && o.ret == s.nActions && o.s.nActions == s.nActions + 1
  {
    var l := s.nActions;
    if l < t[EFC_REGION].nActions {
      assert SlotRight(t, s, EFC_REGION, l);
      if JoinOwns(s.entries, s.native, EFC_REGION, l) {
        OwnsBelow(s.entries, s.native, EFC_REGION, l);
        assert false;
      }
      AddToFree(t, s.created, s.slots, User, l, EFC_REGION);
      var s' := Allocate(t, s).s;
      forall r: nat, k: nat | IsLocal(t, r, k) ensures SlotRight(t, s', r, k) {
        assert SlotRight(t, s, r, k);
        assert At(t, s'.slots, r, k) == if r == EFC_REGION && k == l then Occupied(User) else At(t, s.slots, r, k);
      }
    }
  }

  // ----- runs -----

  lemma StepKeeps(t: Regions, s: State, c: Step)
    requires Inv(t, s) && Enabled(t, s, c)
    ensures var o := Apply(t, s, c);
            if o.Abort? then HonestAbort(c, o.why)
            else Inv(t, o.s) && o.s.nActions == s.nActions + if c.AllocateAction? then 1 else 0
    ensures c.AllocateAction? && Apply(t, s, c).Done? ==> Apply(t, s, c).ret == s.nActions
  {
    match c
    case Open(core) => OpenKeeps(t, s, core);
    case BeginClose(i) => DropKeeps(t, s, i, Closing);
    case EndClose(i) => EndKeeps(t, s, i);
    case CloseByHandle(h) =>
      var core, k := CoreOfHandle(h), SessOfHandle(h);
      if 0 <= core < CORES && 0 <= k < SESSIONS_PER_CORE {
        DropKeeps(t, s, core * SESSIONS_PER_CORE + k, Free);
      }
    case McJoin(region, core, ip, port) => JoinKeeps(t, s, region, core, ip, port);
    case AllocateAction => AllocateKeeps(t, s);
  }

  ghost predicate CanRun(t: Regions, s: State, cs: seq<Step>)
    decreases |cs|
  {
    Sized(t, s) &&
    (cs == [] || (Enabled(t, s, cs[0]) &&
                  var o := Apply(t, s, cs[0]);
                  if o.Abort? then |cs| == 1 else CanRun(t, o.s, cs[1..])))
  }

  function Run(t: Regions, s: State, cs: seq<Step>): Outcome
    requires CanRun(t, s, cs)
    decreases |cs|
  {
    if cs == [] then Done(s, 0)
    else
      var o := Apply(t, s, cs[0]);
      if o.Abort? then o else Run(t, o.s, cs[1..])
  }

  // The ids that the run's calls of allocateAction returned.
  function Allocated(t: Regions, s: State, cs: seq<Step>): seq<int>
    requires CanRun(t, s, cs)
    decreases |cs|
  {
    if cs == [] then []
    else
      var o := Apply(t, s, cs[0]);
      if o.Abort? then []
      else (if cs[0].AllocateAction? then [o.ret] else []) + Allocated(t, o.s, cs[1..])
  }

  // Over every run the tables stay right; addAction never finds a taken slot, a bad index
  // or a wrong region, so the only aborts are full tables and joins in regions never created.
  lemma {:induction false} RunKeeps(t: Regions, s: State, cs: seq<Step>)
    requires Inv(t, s) && CanRun(t, s, cs)
    ensures var o := Run(t, s, cs);
            if o.Abort? then cs != [] && HonestAbort(cs[|cs| - 1], o.why) else Inv(t, o.s)
    decreases |cs|
  {
    if cs != [] {
      StepKeeps(t, s, cs[0]);
      var o := Apply(t, s, cs[0]);
      if o.Done? {
        RunKeeps(t, o.s, cs[1..]);
      }
    }
  }

  // Consecutive numbers from first on.
  predicate InTurn(first: int, ids: seq<int>) {
    forall k :: 0 <= k < |ids| ==> ids[k] == first + k
  }

  lemma InTurnAfter(first: int, rest: seq<int>)
    requires InTurn(first + 1, rest)
    ensures InTurn(first, [first] + rest)
  {
  }

  // The ids handed out in a run are the next numbers in turn, none of them twice.
  lemma {:induction false} IdsAreNeverReused(t: Regions, s: State, cs: seq<Step>)
    requires Inv(t, s) && CanRun(t, s, cs)
    ensures var ids := Allocated(t, s, cs);
            && InTurn(s.nActions, ids)
            && (Run(t, s, cs).Done? ==> Run(t, s, cs).s.nActions == s.nActions + |ids|)
    decreases |cs|
  {
    if cs != [] {
      StepKeeps(t, s, cs[0]);
      var o := Apply(t, s, cs[0]);
      if o.Done? {
        IdsAreNeverReused(t, o.s, cs[1..]);
        var ids, rest := Allocated(t, s, cs), Allocated(t, o.s, cs[1..]);
        if cs[0].AllocateAction? {
          InTurnAfter(s.nActions, rest);
          assert ids == [s.nActions] + rest;
        } else {
          assert ids == rest;
        }
      }
    }
  }

  lemma StartIsRight(t: Regions, created: seq<bool>, native: seq<bool>)
    requires Suits(t) && |created| == TOTAL && |native| == CORES
    requires created[EFC_REGION] && created[TCP_TX_FULL_PKT] && created[TCP_TX_EMPTY_ACK]
    ensures Inv(t, Start(t, created, native)) && Start(t, created, native).nActions == 256
  {
    var s := Start(t, created, native);
    forall r: nat, l: nat | IsLocal(t, r, l) ensures SlotRight(t, s, r, l) {
      IndexRoundTrip(t, r, l, 0);
    }
  }

  lemma DriverTableSuits()
    ensures Suits(DriverRegions())
  {
    forall r: nat | IsJoinRegion(r) ensures DriverRegions()[r].nActions >= 2 * MAX_ENTRIES_PER_LANE {
      if r >= IGMP_REGION {
        assert DriverRegions()[r] == IgmpRegion(r - IGMP_REGION);
      }
    }
  }

  lemma OwnHandle(core: nat, k: nat)
    requires core < CORES && k < SESSIONS_PER_CORE
    ensures CoreOfHandle(ConnHandle(core, k)) == core && SessOfHandle(ConnHandle(core, k)) == k
  {
    HandleResolves(ConnHandle(core, k), core, k);
  }

  lemma KindOfSession(core: nat, k: nat)
    requires k < SESSIONS_PER_CORE
    ensures SessionKind(core * SESSIONS_PER_CORE + k) == if k == CONTROL_SESS_ID then TcpFullPkt else TcpFastPath
  {
    ModUnique(core * SESSIONS_PER_CORE + k, SESSIONS_PER_CORE, core, k);
  }

  // In every state a run reaches, a session's two actions exist, each of its kind, if and
  // only if it is live, and its handle leads back to it.
  lemma SlotsFollowSessions(t: Regions, s: State, core: nat, k: nat)
    requires Inv(t, s) && core < CORES && k < SESSIONS_PER_CORE
    ensures var i := core * SESSIONS_PER_CORE + k;
            && At(t, s.slots, TCP_TX_FULL_PKT, i)
               == (if !s.sess[i].Live? then NoAction else Slot.Occupied(if k == CONTROL_SESS_ID then TcpFullPkt else TcpFastPath))
            && At(t, s.slots, TCP_TX_EMPTY_ACK, i)
               == (if !s.sess[i].Live? then NoAction else Slot.Occupied(TcpEmptyAck))
            && CoreOfHandle(ConnHandle(core, k)) == core && SessOfHandle(ConnHandle(core, k)) == k
  {
    var i := core * SESSIONS_PER_CORE + k;
    assert SlotRight(t, s, TCP_TX_FULL_PKT, i) && SlotRight(t, s, TCP_TX_EMPTY_ACK, i);
    OwnHandle(core, k);
    KindOfSession(core, k);
  }

  // Entries are distinct, and always fewer than their array holds.
  lemma EntriesFit(t: Regions, s: State, i: nat, j: nat)
    requires Inv(t, s) && i < |s.entries| && j < |s.entries| && i != j
    ensures |s.entries| <= CORES * MAX_ENTRIES_PER_LANE < MAX_IGMP_ENTRIES
    ensures (s.entries[i].core, s.entries[i].ip, s.entries[i].port) != (s.entries[j].core, s.entries[j].ip, s.entries[j].port)
    ensures s.entries[i].region == s.entries[j].region ==> s.entries[i].perCh != s.entries[j].perCh
  {
    var lo, hi := if i < j then i else j, if i < j then j else i;
    CountMonotone(s.entries, lo + 1, hi, s.entries[lo].region);
    CountWithLast(s.entries, lo);
    assert !IsMy(s.entries[hi], s.entries[lo].core, s.entries[lo].ip, s.entries[lo].port);
  }

  // In every state a run reaches, an action of a join region exists if and only if it is the
  // join or the leave of an entry whose core sends them.
  lemma SlotsFollowJoins(t: Regions, s: State, r: nat, l: nat)
    requires Inv(t, s) && IsLocal(t, r, l) && IsJoinRegion(r) && (r == EFC_REGION ==> l < P4_RESERVED)
    ensures At(t, s.slots, r, l)
            == if exists i :: 0 <= i < |s.entries| && s.entries[i].region == r && s.entries[i].core < CORES
                    && s.native[s.entries[i].core]
                    && (l == 2 * s.entries[i].perCh || l == 2 * s.entries[i].perCh + 1)
               then Slot.Occupied(Igmp) else NoAction
  {
    assert SlotRight(t, s, r, l);
    if i :| 0 <= i < |s.entries| && OwnedBy(s.entries[i], s.native, r, l) {
      assert s.entries[i].region == r;
    }
  }

  // A second join of the same group answers with the entry's place among all entries. That
  // is the entry's index in its region if and only if no earlier entry is in another region.
  lemma JoinAgain(t: Regions, s: State, i: nat, region: nat)
    requires Inv(t, s) && i < |s.entries| && region < TOTAL && s.entries[i].core < CORES
    ensures var e := s.entries[i];
            var o := Join(t, s, region, e.core, e.ip, e.port);
            && o == Done(s, i)
            && (o.ret == e.perCh <==> forall j :: 0 <= j < i ==> s.entries[j].region == e.region)
  {
    var e := s.entries[i];
    var k := FindEntry(s.entries, e.core, e.ip, e.port);
    assert IsMy(e, e.core, e.ip, e.port);
    assert k == i;
    CountsAll(s.entries[..i], e.region);
  }

  lemma {:induction false} CountsAll(es: seq<Entry>, region: nat)
    ensures CountRegion(es, region) <= |es|
    ensures CountRegion(es, region) == |es| <==> forall j :: 0 <= j < |es| ==> es[j].region == region
    decreases |es|
  {
    if es != [] {
      var front := es[..|es| - 1];
      CountsAll(front, region);
      assert forall j :: 0 <= j < |front| ==> front[j] == es[j];
    }
  }
}
