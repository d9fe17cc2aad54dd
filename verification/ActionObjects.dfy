// The objects that hold the action table, the sessions of a core and the join entries, each
// method tied to its step on values.
module ActionObjects {
  import opened EpmRegion
  import opened ActionTable

  // Fatal is on_error.
  datatype Verdict = Fine | Fatal(why: Why)

  class EkaEpm {
    const t: Regions
    const created: seq<bool>
    const a: array<Slot>
    var nActions: nat

    predicate Valid() {
      && Suits(t) && |created| == TOTAL && a.Length == ActionsBefore(t, TOTAL)
    }

    constructor (t: Regions, created: seq<bool>)
      requires Suits(t) && |created| == TOTAL
      ensures this.t == t && this.created == created && Valid() && fresh(a)
      ensures a[..] == Start(t, created, []).slots && nActions == P4_RESERVED
    {
      this.t, this.created := t, created;
      a := new Slot[ActionsBefore(t, TOTAL)](_ => NoAction);
      nActions := P4_RESERVED;
    }

    method AddAction(k: Kind, l: nat, region: nat) returns (v: Verdict)
      requires Valid() && region < TOTAL
      modifies a
      ensures var o := ActionTable.AddAction(t, created, old(a[..]), k, l, region);
              if o.Slots? then v.Fine? && a[..] == o.slots else v == Fatal(o.why) && a[..] == old(a[..])
    {
      if !created[region] {
        return Fatal(NoRegion);
      }
      if (k.TcpFullPkt? || k.TcpFastPath?) && region != TCP_TX_FULL_PKT {
        return Fatal(WrongRegion);
      }
      if k.TcpEmptyAck? && region != TCP_TX_EMPTY_ACK {
        return Fatal(WrongRegion);
      }
      var baseIdx := GetBaseActionIdx(t, region);
      if l >= baseIdx + t[region].nActions {
        return Fatal(BadActionId);
      }
      var globalIdx := baseIdx + l;
      if globalIdx >= a.Length {
        return Fatal(OutOfTable);
      }
      if a[globalIdx].Occupied? {
        return Fatal(SlotTaken);
      }
      a[globalIdx] := Occupied(k);
      return Fine;
    }

    method DeleteAction(l: nat, region: nat)
      requires Valid() && region < TOTAL && GlobalIdx(t, region, l) < a.Length
      modifies a
      ensures a[..] == ActionTable.DeleteAction(t, old(a[..]), l, region)
    {
      var baseIdx := GetBaseActionIdx(t, region);
      a[baseIdx + l] := NoAction;
    }

    // The table as the values see it.
    function View(s: State): State
      reads this, a
    {
      s.(slots := a[..], created := created, nActions := nActions)
    }

    method AllocateAction(ghost s: State) returns (v: Verdict, id: int)
      requires Valid() && Sized(t, View(s))
      modifies a, this`nActions
      ensures var o := Allocate(t, old(View(s)));
              if o.Done? then v.Fine? && View(s) == o.s && id == o.ret else v == Fatal(o.why)
    {
      if nActions == t[EFC_REGION].nActions {
        return Fatal(OutOfActions), -1;
      }
      var globalIdx := nActions;
      v := AddAction(User, globalIdx, EFC_REGION);
      if v.Fatal? {
        return v, -1;
      }
      nActions := nActions + 1;
      return v, globalIdx;
    }
  }

  class EkaCore {
    const tcpSess: array<SessState>

    constructor ()
      ensures tcpSess.Length == SESSIONS_PER_CORE && fresh(tcpSess)
      ensures forall k :: 0 <= k < SESSIONS_PER_CORE ==> tcpSess[k] == Free
    {
      tcpSess := new SessState[SESSIONS_PER_CORE](_ => Free);
    }

    // The first free session, or 31 where the source aborts; the control session is not looked at.
    method GetFreeTcpSess(ghost sess: seq<SessState>, ghost c: nat) returns (k: nat)
      requires tcpSess.Length == SESSIONS_PER_CORE && |sess| == SESSIONS && c < CORES
      requires forall j :: 0 <= j < SESSIONS_PER_CORE ==> tcpSess[j].Free? == !IsTaken(sess, c, j)
      ensures k == FreeSession(sess, c, 0)
      ensures k <= 31 && (forall j :: 0 <= j < k ==> !tcpSess[j].Free?) && (k < 31 ==> tcpSess[k].Free?)
    {
      k := 0;
      while k < CONTROL_SESS_ID
        invariant 0 <= k <= CONTROL_SESS_ID
        invariant FreeSession(sess, c, 0) == FreeSession(sess, c, k)
      {
        if tcpSess[k].Free? {
          return;
        }
        k := k + 1;
      }
    }
  }

  class EkaIgmp {
    const epm: EkaEpm
    const native: seq<bool>   // cores whose joins need actions
    const igmpEntry: array<Entry>
    const numAtCh: array<nat>
    const numAtCore: array<nat>
    var numIgmpEntries: nat

    constructor (epm: EkaEpm, native: seq<bool>)
      ensures this.epm == epm && this.native == native && numIgmpEntries == 0 && igmpEntry.Length == MAX_IGMP_ENTRIES
      ensures fresh(igmpEntry) && fresh(numAtCh) && fresh(numAtCore) && numAtCh != numAtCore
      ensures numAtCh[..] == seq(TOTAL, _ => 0) && numAtCore[..] == seq(MAX_IGMP_LANES, _ => 0)
    {
      this.epm, this.native := epm, native;
      igmpEntry := new Entry[MAX_IGMP_ENTRIES](_ => Entry(0, 0, 0, 0, 0));
      numAtCh := new nat[TOTAL](_ => 0);
      numAtCore := new nat[MAX_IGMP_LANES](_ => 0);
      numIgmpEntries := 0;
    }

    predicate Valid()
      reads this
    {
      && epm.Valid() && igmpEntry.Length == MAX_IGMP_ENTRIES && numIgmpEntries <= MAX_IGMP_ENTRIES
      && numAtCh.Length == TOTAL && numAtCore.Length == MAX_IGMP_LANES && numAtCh != numAtCore
    }

    function Entries(): seq<Entry>
      requires Valid()
      reads this, igmpEntry
    {
      igmpEntry[..numIgmpEntries]
    }

    // The tables as the values see them.
    function View(s: State): State
      requires Valid()
      reads this, epm, epm.a, igmpEntry, numAtCh, numAtCore
    {
      epm.View(s).(native := native, entries := Entries(), atCh := numAtCh[..], atCore := numAtCore[..])
    }

    // Its place among the entries, or their number.
    method Find(core: nat, ip: nat, port: nat) returns (i: nat)
      requires Valid()
      ensures i == FindEntry(Entries(), core, ip, port)
      ensures i < numIgmpEntries ==> igmpEntry[i].core == core && igmpEntry[i].ip == ip && igmpEntry[i].port == port
      ensures forall j :: 0 <= j < i ==> igmpEntry[j].core != core || igmpEntry[j].ip != ip || igmpEntry[j].port != port
    {
      i := 0;
      while i < numIgmpEntries && !IsMy(igmpEntry[i], core, ip, port)
        invariant i <= numIgmpEntries
        invariant forall j :: 0 <= j < i ==> !IsMy(igmpEntry[j], core, ip, port)
      {
        i := i + 1;
      }
    }

    method AddPair(l: nat, region: nat) returns (v: Verdict)
      requires Valid() && region < TOTAL
      modifies epm.a
      ensures var o := ActionTable.AddPair(epm.t, epm.created, old(epm.a[..]), l, region);
              if o.Slots? then v.Fine? && epm.a[..] == o.slots else v == Fatal(o.why)
    {
      v := epm.AddAction(Igmp, l, region);
      if v.Fine? {
        v := epm.AddAction(Igmp, l + 1, region);
      }
    }

    method McJoin(region: nat, core: nat, ip: nat, port: nat, ghost s: State) returns (v: Verdict, perChId: int)
      requires Valid() && Sized(epm.t, View(s)) && region < TOTAL && core < CORES && numIgmpEntries < MAX_IGMP_ENTRIES
      modifies this`numIgmpEntries, igmpEntry, numAtCh, numAtCore, epm.a
      ensures Valid()
      ensures var o := Join(epm.t, old(View(s)), region, core, ip, port);
              if o.Done? then v.Fine? && View(s) == o.s && perChId == o.ret else v == Fatal(o.why)
    {
      ghost var was := View(s);
      var i := Find(core, ip, port);
      if i < numIgmpEntries {
        return Fine, i;
      }
      if numAtCh[region] == MAX_ENTRIES_PER_LANE {
        return Fatal(ChannelFull), -1;
      }
      if numAtCore[core] == MAX_ENTRIES_PER_LANE {
        return Fatal(CoreFull), -1;
      }
      perChId := numAtCh[region];
      if native[core] {
        v := AddPair(2 * perChId, region);
        if v.Fatal? {
          return v, -1;
        }
      }
      igmpEntry[numIgmpEntries] := Entry(region, core, ip, port, perChId);
      numIgmpEntries := numIgmpEntries + 1;
      numAtCh[region] := perChId + 1;
      numAtCore[core] := numAtCore[core] + 1;
      assert Entries() == was.entries + [Entry(region, core, ip, port, perChId)];
      v := Fine;
    }
  }
}
