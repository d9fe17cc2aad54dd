// Sessions, market data joins and the actions that they own: the tables as values, and every
// call that changes them as one step. A socket is closed in two steps, since excSocketClose
// holds no lock between deleting the session and clearing its pointer.
module ActionTable {
  import opened EpmRegion

  const CORES := 4
  const CONTROL_SESS_ID := 31
  const SESSIONS_PER_CORE := 32
  const SESSIONS := 128
  const P4_RESERVED := 256
  const MAX_ENTRIES_PER_LANE := 64
  const MAX_IGMP_LANES := 8
  const MAX_IGMP_ENTRIES := 512

  datatype Kind = TcpFullPkt | TcpFastPath | TcpEmptyAck | Igmp | User

  datatype Slot = NoAction | Occupied(kind: Kind)

  datatype SessState = Free | Live | Closing

  datatype Entry = Entry(region: nat, core: nat, ip: nat, port: nat, perCh: nat)

  datatype State = State(
    slots: seq<Slot>,         // a_, by global index
    created: seq<bool>,       // epmRegion
    native: seq<bool>,        // cores whose joins need actions
    up: seq<bool>,            // cores whose control session was made
    sess: seq<SessState>,     // by core * 32 + session
    nActions: nat,
    entries: seq<Entry>,
    atCh: seq<nat>,
    atCore: seq<nat>)

  // Why on_error was called.
  datatype Why =
    | NoRegion | WrongRegion | BadActionId | OutOfTable | SlotTaken
    | NoFreeSession | OutOfActions | ChannelFull | CoreFull

  datatype SlotsOut = Slots(slots: seq<Slot>) | Refused(why: Why)

  datatype Outcome = Done(s: State, ret: int) | Abort(why: Why)

  // ----- the action table -----

  predicate KindFits(k: Kind, region: nat) {
    && (k.TcpFullPkt? || k.TcpFastPath? ==> region == TCP_TX_FULL_PKT)
    && (k.TcpEmptyAck? ==> region == TCP_TX_EMPTY_ACK)
  }

  function AddAction(t: Regions, created: seq<bool>, slots: seq<Slot>, k: Kind, l: nat, region: nat): SlotsOut
    requires region < |t| == |created|
  {
    if !created[region] then Refused(NoRegion)
    else if !KindFits(k, region) then Refused(WrongRegion)
    else if !PassesSanityCheck(t, region, l) then Refused(BadActionId)
    else
      var g := GlobalIdx(t, region, l);
      if g >= |slots| then Refused(OutOfTable)
      else if slots[g].Occupied? then Refused(SlotTaken)
      else Slots(slots[g := Occupied(k)])
  }

  // An action is added if and only if its region exists and suits its kind, its number is
  // below the region's end and the table's, and no action has that number; otherwise the
  // first of these that fails is reported.
  lemma AddActionExactly(t: Regions, created: seq<bool>, slots: seq<Slot>, k: Kind, l: nat, region: nat)
    requires region < |t| == |created|
    ensures var o := AddAction(t, created, slots, k, l, region);
            var misplaced := ((k == TcpFullPkt || k == TcpFastPath) && region != 5) || (k == TcpEmptyAck && region != 6);
            var g := ActionsBefore(t, region) + l;
            && (o == Refused(NoRegion) <==> !created[region])
            && (o == Refused(WrongRegion) <==> created[region] && misplaced)
            && (o == Refused(BadActionId) <==> created[region] && !misplaced && l >= ActionsBefore(t, region) + t[region].nActions)
            && (o.Slots? || o.why in [OutOfTable, SlotTaken] <==>
                  created[region] && !misplaced && l < ActionsBefore(t, region) + t[region].nActions)
            && (o == Refused(OutOfTable) ==> g >= |slots|)
            && (o == Refused(SlotTaken) ==> g < |slots| && slots[g] != NoAction)
            && (o.Slots? ==> g < |slots| && slots[g] == NoAction && o.slots == slots[g := Occupied(k)])
  {
  }

  // deleteAction checks nothing: an index that is not the region's own clears another
  // region's slot.
  function DeleteAction(t: Regions, slots: seq<Slot>, l: nat, region: nat): (s: seq<Slot>)
    requires region < |t| && GlobalIdx(t, region, l) < |slots|
    ensures |s| == |slots|
  {
    slots[GlobalIdx(t, region, l) := NoAction]
  }

  function At(t: Regions, slots: seq<Slot>, r: nat, l: nat): Slot
    requires IsLocal(t, r, l) && |slots| == ActionsBefore(t, |t|)
  {
    IndexRoundTrip(t, r, l, 0);
    slots[GlobalIdx(t, r, l)]
  }

  // slots' is slots with v for one action.
  ghost predicate OneChange(t: Regions, slots: seq<Slot>, slots': seq<Slot>, r: nat, l: nat, v: Slot)
    requires IsLocal(t, r, l) && |slots| == |slots'| == ActionsBefore(t, |t|)
  {
    forall r2: nat, l2: nat :: IsLocal(t, r2, l2) ==>
      At(t, slots', r2, l2) == if r2 == r && l2 == l then v else At(t, slots, r2, l2)
  }

  lemma UpdateIsOneChange(t: Regions, slots: seq<Slot>, r: nat, l: nat, v: Slot)
    requires IsLocal(t, r, l) && |slots| == ActionsBefore(t, |t|)
    ensures GlobalIdx(t, r, l) < |slots|
    ensures OneChange(t, slots, slots[GlobalIdx(t, r, l) := v], r, l, v)
  {
    IndexRoundTrip(t, r, l, 0);
    forall r2: nat, l2: nat | IsLocal(t, r2, l2)
      ensures At(t, slots[GlobalIdx(t, r, l) := v], r2, l2) == if r2 == r && l2 == l then v else At(t, slots, r2, l2)
    {
      IndexRoundTrip(t, r2, l2, 0);
    }
  }

  lemma AddToFree(t: Regions, created: seq<bool>, slots: seq<Slot>, k: Kind, l: nat, r: nat)
    requires r < |t| == |created| && created[r] && KindFits(k, r)
    requires IsLocal(t, r, l) && |slots| == ActionsBefore(t, |t|) && At(t, slots, r, l).NoAction?
    ensures var o := AddAction(t, created, slots, k, l, r);
            o.Slots? && |o.slots| == |slots| && OneChange(t, slots, o.slots, r, l, Occupied(k))
  {
    UpdateIsOneChange(t, slots, r, l, Occupied(k));
    SanityCheckIsWeak(t, r, l);
  }

  // One action is deleted and every other is kept; it is the named one if and only if the
  // index is the region's own.
  lemma DeleteIsOneChange(t: Regions, slots: seq<Slot>, l: nat, r: nat)
    requires r < |t| && GlobalIdx(t, r, l) < |slots| == ActionsBefore(t, |t|)
    ensures var g := GlobalIdx(t, r, l);
            var r2, l2 := RegionOf(t, g, |t|), LocalOf(t, g);
            && OneChange(t, slots, DeleteAction(t, slots, l, r), r2, l2, NoAction)
            && (r2 == r && l2 == l <==> IsLocal(t, r, l))
  {
    var g := GlobalIdx(t, r, l);
    IndexRoundTrip(t, r, l, g);
    UpdateIsOneChange(t, slots, RegionOf(t, g, |t|), LocalOf(t, g), NoAction);
  }

  lemma DeleteOwn(t: Regions, slots: seq<Slot>, l: nat, r: nat)
    requires IsLocal(t, r, l) && |slots| == ActionsBefore(t, |t|)
    ensures GlobalIdx(t, r, l) < |slots|
    ensures OneChange(t, slots, DeleteAction(t, slots, l, r), r, l, NoAction)
  {
    IndexRoundTrip(t, r, l, 0);
    DeleteIsOneChange(t, slots, l, r);
  }

  // ----- sessions -----

  function SessionKind(i: nat): Kind {
    if i % SESSIONS_PER_CORE == CONTROL_SESS_ID then TcpFullPkt else TcpFastPath
  }

  // The EkaTcpSess constructor, as far as the tables go.
  function MakeSession(t: Regions, s: State, i: nat): Outcome
    requires |t| == |s.created| == TOTAL && i < |s.sess|
  {
    var full := AddAction(t, s.created, s.slots, SessionKind(i), i, TCP_TX_FULL_PKT);
    if full.Refused? then Abort(full.why)
    else
      var ack := AddAction(t, s.created, full.slots, TcpEmptyAck, i, TCP_TX_EMPTY_ACK);
      if ack.Refused? then Abort(ack.why)
      else Done(s.(slots := ack.slots, sess := s.sess[i := Live]), i)
  }

  // The destructor.
  function DropSession(t: Regions, s: State, i: nat, next: SessState): State
    requires Sized(t, s) && i < SESSIONS
  {
    IndexRoundTrip(t, TCP_TX_FULL_PKT, i, 0);
    IndexRoundTrip(t, TCP_TX_EMPTY_ACK, i, 0);
    var slots := DeleteAction(t, s.slots, i, TCP_TX_FULL_PKT);
    s.(slots := DeleteAction(t, slots, i, TCP_TX_EMPTY_ACK), sess := s.sess[i := next])
  }

  predicate IsTaken(sess: seq<SessState>, c: nat, k: nat)
    requires |sess| == SESSIONS && c < CORES && k < SESSIONS_PER_CORE
  {
    !sess[c * SESSIONS_PER_CORE + k].Free?
  }

  // getFreeTcpSess of core c, from session i on; 31 when there is none.
  function FreeSession(sess: seq<SessState>, c: nat, i: nat): (k: nat)
    requires |sess| == SESSIONS && c < CORES && i <= CONTROL_SESS_ID
    ensures i <= k <= CONTROL_SESS_ID
    ensures forall j :: i <= j < k ==> IsTaken(sess, c, j)
    ensures k < CONTROL_SESS_ID ==> !IsTaken(sess, c, k)
    decreases CONTROL_SESS_ID - i
  {
    if i == CONTROL_SESS_ID || !IsTaken(sess, c, i) then i else FreeSession(sess, c, i + 1)
  }

  // initTcp, once for each core.
  function BringUp(t: Regions, s: State, c: nat): Outcome
    requires Sized(t, s) && c < CORES
  {
    if s.up[c] then Done(s, 0)
    else
      var o := MakeSession(t, s, c * SESSIONS_PER_CORE + CONTROL_SESS_ID);
      if o.Abort? then o else Done(o.s.(up := s.up[c := true]), 0)
  }

  // excSocket; the result is the index of the new session.
  function OpenSocket(t: Regions, s: State, c: nat): Outcome
    requires Sized(t, s) && c < CORES
  {
    var o := BringUp(t, s, c);
    if o.Abort? then o
    else
      var i := FreeSession(o.s.sess, c, 0);
      if i == CONTROL_SESS_ID then Abort(NoFreeSession)
      else MakeSession(t, o.s, c * SESSIONS_PER_CORE + i)
  }

  // ----- connection handles -----

  function TruncDiv(x: int, m: nat): int
    requires m > 0
  {
    if x >= 0 then x / m else -(-x / m)
  }

  function ToInt8(x: int): int { (x + 128) % 256 - 128 }

  function ConnHandle(core: nat, sess: nat): int { core * 128 + sess }

  function CoreOfHandle(h: int): int { ToInt8(TruncDiv(h, 128)) }

  function SessOfHandle(h: int): int { ToInt8(h - 128 * TruncDiv(h, 128)) }

  predicate IsHandle(h: int) { -0x8000 <= h < 0x8000 }

  lemma HandleParts(h: int)
    requires IsHandle(h)
    ensures var q := TruncDiv(h, 128);
            var r := h - 128 * q;
            -256 <= q <= 255 && -128 < r < 128 && (h < 0 ==> r <= 0) && (h >= 0 ==> r >= 0)
  {
  }

  lemma Int8Wraps(x: int)
    requires -256 <= x < 256
    ensures ToInt8(x) == if x < -128 then x + 256 else if x < 128 then x else x - 256
  {
  }

  // A 16-bit handle reaches a session if and only if it is the session's own, or, for
  // session 0, that one less 2^15: the quotient wraps to the core's number once more.
  lemma HandleResolves(h: int, core: nat, sess: nat)
    requires IsHandle(h) && core < CORES && sess < SESSIONS_PER_CORE
    ensures CoreOfHandle(h) == core && SessOfHandle(h) == sess <==>
      h == ConnHandle(core, sess) || (sess == 0 && h == ConnHandle(core, 0) - 0x8000)
  {
    HandleParts(h);
    var q := TruncDiv(h, 128);
    Int8Wraps(q);
    Int8Wraps(h - 128 * q);
    WhichHandle(h, q, h - 128 * q, core, sess);
  }

  lemma WhichHandle(h: int, q: int, r: int, core: nat, sess: nat)
    requires IsHandle(h) && h == 128 * q + r && -256 <= q <= 255 && -128 < r < 128
    requires (h < 0 ==> r <= 0) && (h >= 0 ==> r >= 0) && core < CORES && sess < SESSIONS_PER_CORE
    ensures (q == core || q == core - 256) && r == sess <==>
      h == core * 128 + sess || (sess == 0 && h == core * 128 - 0x8000)
  {
  }

  // excClose on a handle; -1 where it finds no session.
  function CloseHandle(t: Regions, s: State, h: int): Outcome
    requires Sized(t, s)
  {
    var c, k := CoreOfHandle(h), SessOfHandle(h);
    if c < 0 || c >= CORES || k < 0 || k >= SESSIONS_PER_CORE then Done(s, -1)
    else
      var i := c * SESSIONS_PER_CORE + k;
      if s.sess[i].Live? then Done(DropSession(t, s, i, Free), 0) else Done(s, -1)
  }

  // ----- market data joins -----

  predicate IsMy(e: Entry, core: nat, ip: nat, port: nat) {
    e.core == core && e.ip == ip && e.port == port
  }

  function FindEntry(es: seq<Entry>, core: nat, ip: nat, port: nat): (i: nat)
    ensures i <= |es|
    ensures i < |es| ==> IsMy(es[i], core, ip, port)
    ensures forall j :: 0 <= j < i ==> !IsMy(es[j], core, ip, port)
  {
    if es == [] || IsMy(es[0], core, ip, port) then 0 else 1 + FindEntry(es[1..], core, ip, port)
  }

  // mcJoin, with the actions its new entry makes.
  function Join(t: Regions, s: State, region: nat, core: nat, ip: nat, port: nat): Outcome
    requires Sized(t, s) && region < TOTAL && core < CORES
  {
    var i := FindEntry(s.entries, core, ip, port);
    if i < |s.entries| then Done(s, i)
    else if s.atCh[region] == MAX_ENTRIES_PER_LANE then Abort(ChannelFull)
    else if s.atCore[core] == MAX_ENTRIES_PER_LANE then Abort(CoreFull)
    else
      var n := s.atCh[region];
      var made := if s.native[core] then AddPair(t, s.created, s.slots, 2 * n, region) else Slots(s.slots);
      if made.Refused? then Abort(made.why)
      else Done(s.(slots := made.slots,
                   entries := s.entries + [Entry(region, core, ip, port, n)],
                   atCh := s.atCh[region := n + 1],
                   atCore := s.atCore[core := s.atCore[core] + 1]), n)
  }

  function AddPair(t: Regions, created: seq<bool>, slots: seq<Slot>, l: nat, region: nat): SlotsOut
    requires region < |t| == |created|
  {
    var join := AddAction(t, created, slots, Igmp, l, region);
    if join.Refused? then join else AddAction(t, created, join.slots, Igmp, l + 1, region)
  }

  // ----- actions of the user -----

  function Allocate(t: Regions, s: State): Outcome
    requires Sized(t, s)
  {
    if s.nActions == t[EFC_REGION].nActions then Abort(OutOfActions)
    else
      var o := AddAction(t, s.created, s.slots, User, s.nActions, EFC_REGION);
      if o.Refused? then Abort(o.why) else Done(s.(slots := o.slots, nActions := s.nActions + 1), s.nActions)
  }

  // ----- steps -----

  datatype Step =
    | Open(core: nat)
    | BeginClose(i: nat)
    | EndClose(i: nat)
    | CloseByHandle(h: int)
    | McJoin(region: nat, core: nat, ip: nat, port: nat)
    | AllocateAction

  // Regions whose actions do not belong to sessions.
  predicate IsJoinRegion(r: nat) { r < TOTAL && r != TCP_TX_FULL_PKT && r != TCP_TX_EMPTY_ACK }

  // What callers respect: a session is closed once, joins stay out of the sessions' regions.
  predicate Enabled(t: Regions, s: State, c: Step)
    requires Sized(t, s)
  {
    match c
    case Open(core) => core < CORES
    case BeginClose(i) => i < SESSIONS && s.sess[i].Live? && i % SESSIONS_PER_CORE != CONTROL_SESS_ID
    case EndClose(i) => i < SESSIONS && s.sess[i].Closing?
    case CloseByHandle(h) =>
      && IsHandle(h)
      && forall i :: 0 <= i < SESSIONS && s.sess[i].Closing? ==>
           CoreOfHandle(h) != i / SESSIONS_PER_CORE || SessOfHandle(h) != i % SESSIONS_PER_CORE
    case McJoin(region, core, _, _) => IsJoinRegion(region) && core < CORES
    case AllocateAction => true
  }

  function Apply(t: Regions, s: State, c: Step): Outcome
    requires Sized(t, s) && Enabled(t, s, c)
  {
    match c
    case Open(core) => OpenSocket(t, s, core)
    case BeginClose(i) => Done(DropSession(t, s, i, Closing), 0)
    case EndClose(i) => Done(s.(sess := s.sess[i := Free]), 0)
    case CloseByHandle(h) => CloseHandle(t, s, h)
    case McJoin(region, core, ip, port) => Join(t, s, region, core, ip, port)
    case AllocateAction => Allocate(t, s)
  }

  // ----- what every run keeps -----

  // A region table large enough for the sessions, the joins and the preallocated actions.
  predicate Suits(t: Regions) {
    && |t| == TOTAL && t[TCP_TX_FULL_PKT].nActions >= SESSIONS && t[TCP_TX_EMPTY_ACK].nActions >= SESSIONS
    && t[EFC_REGION].nActions >= P4_RESERVED
    && forall r: nat :: r < TOTAL && IsJoinRegion(r) ==> t[r].nActions >= 2 * MAX_ENTRIES_PER_LANE
  }

  predicate Sized(t: Regions, s: State) {
    && Suits(t) && |s.slots| == ActionsBefore(t, TOTAL)
    && |s.created| == TOTAL && |s.native| == CORES && |s.up| == CORES && |s.sess| == SESSIONS
    && |s.atCh| == TOTAL && |s.atCore| == MAX_IGMP_LANES
  }

  // Some entry whose core sends joins owns action l of the region: its join or its leave.
  predicate JoinOwns(es: seq<Entry>, native: seq<bool>, r: nat, l: nat) {
    exists i :: 0 <= i < |es| && OwnedBy(es[i], native, r, l)
  }

  predicate OwnedBy(e: Entry, native: seq<bool>, r: nat, l: nat) {
    e.region == r && e.perCh == l / 2 && e.core < |native| && native[e.core]
  }

  // What the table holds for an action.
  predicate SlotRight(t: Regions, s: State, r: nat, l: nat)
    requires Sized(t, s) && IsLocal(t, r, l)
  {
    var v := At(t, s.slots, r, l);
    if r == TCP_TX_FULL_PKT then v == if l < SESSIONS && s.sess[l].Live? then Occupied(SessionKind(l)) else NoAction
    else if r == TCP_TX_EMPTY_ACK then v == if l < SESSIONS && s.sess[l].Live? then Occupied(TcpEmptyAck) else NoAction
    else if r == EFC_REGION && P4_RESERVED <= l < s.nActions then v == Occupied(User)
    else v == if JoinOwns(s.entries, s.native, r, l) then Occupied(Igmp) else NoAction
  }

  ghost predicate SlotsRight(t: Regions, s: State)
    requires Sized(t, s)
  {
    forall r: nat, l: nat :: IsLocal(t, r, l) ==> SlotRight(t, s, r, l)
  }

  function CountRegion(es: seq<Entry>, region: nat): nat
    decreases |es|
  {
    if es == [] then 0
    else CountRegion(es[..|es| - 1], region) + if es[|es| - 1].region == region then 1 else 0
  }

  predicate EntriesRight(es: seq<Entry>) {
    && (forall i :: 0 <= i < |es| ==> es[i].perCh == CountRegion(es[..i], es[i].region))
    && (forall i, j :: 0 <= i < j < |es| ==> !IsMy(es[j], es[i].core, es[i].ip, es[i].port))
  }

  predicate CountsRight(s: State)
    requires |s.atCh| == TOTAL && |s.atCore| == MAX_IGMP_LANES
  {
    && (forall r :: 0 <= r < TOTAL ==> s.atCh[r] == CountRegion(s.entries, r) && s.atCh[r] <= MAX_ENTRIES_PER_LANE)
    && (forall c :: 0 <= c < CORES ==> s.atCore[c] <= MAX_ENTRIES_PER_LANE)
    && |s.entries| == s.atCore[0] + s.atCore[1] + s.atCore[2] + s.atCore[3]
  }

  // Control sessions of cores not yet brought up are free.
  predicate ControlRight(s: State)
    requires |s.sess| == SESSIONS && |s.up| == CORES
  {
    forall c :: 0 <= c < CORES && !s.up[c] ==> s.sess[c * SESSIONS_PER_CORE + CONTROL_SESS_ID].Free?
  }

  ghost predicate Core(t: Regions, s: State) {
    && Sized(t, s) && SlotsRight(t, s)
    && s.created[EFC_REGION] && s.created[TCP_TX_FULL_PKT] && s.created[TCP_TX_EMPTY_ACK]
  }

  predicate JoinsRight(s: State)
    requires |s.atCh| == TOTAL && |s.atCore| == MAX_IGMP_LANES
  {
    EntriesRight(s.entries) && CountsRight(s)
  }

  ghost predicate Inv(t: Regions, s: State) {
    && Core(t, s) && P4_RESERVED <= s.nActions <= t[EFC_REGION].nActions
    && JoinsRight(s) && ControlRight(s)
  }

  function Start(t: Regions, created: seq<bool>, native: seq<bool>): State {
    State(seq(ActionsBefore(t, |t|), _ => NoAction), created, native, seq(CORES, _ => false),
          seq(SESSIONS, _ => Free), P4_RESERVED, [], seq(TOTAL, _ => 0), seq(MAX_IGMP_LANES, _ => 0))
  }
}
