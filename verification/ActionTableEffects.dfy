// What single calls do to the tables: a join enters its entry, a close takes back what an open
// has made.
module ActionTableEffects {
  import opened EpmRegion
  import opened ActionTable
  import opened ActionTableRuns

  // ----- joins -----

  predicate HasJoined(es: seq<Entry>, core: nat, ip: nat, port: nat) {
    exists i :: 0 <= i < |es| && es[i].core == core && es[i].ip == ip && es[i].port == port
  }

  // A join that does not abort changes nothing if the core has joined the group already, and
  // otherwise appends the entry, under the next number of its region, which it answers.
  lemma JoinEnters(t: Regions, s: State, region: nat, core: nat, ip: nat, port: nat)
    requires Sized(t, s) && region < TOTAL && core < CORES && Join(t, s, region, core, ip, port).Done?
    ensures var o := Join(t, s, region, core, ip, port);
            if HasJoined(s.entries, core, ip, port) then o.s == s && 0 <= o.ret < |s.entries|
            else
              && o.ret == s.atCh[region]
              && o.s == s.(slots := o.s.slots, entries := s.entries + [Entry(region, core, ip, port, s.atCh[region])],
                           atCh := s.atCh[region := s.atCh[region] + 1],
                           atCore := s.atCore[core := s.atCore[core] + 1])
              && (!s.native[core] ==> o.s.slots == s.slots)
  {
    var i := FindEntry(s.entries, core, ip, port);
    if i < |s.entries| {
      assert s.entries[i].core == core && s.entries[i].ip == ip && s.entries[i].port == port;
    } else {
      assert forall j :: 0 <= j < |s.entries| ==> !IsMy(s.entries[j], core, ip, port);
    }
  }

  // A new entry is refused in a region or on a core that has 64 already.
  lemma JoinRefuses(t: Regions, s: State, region: nat, core: nat, ip: nat, port: nat)
    requires Sized(t, s) && region < TOTAL && core < CORES && !HasJoined(s.entries, core, ip, port)
    ensures var o := Join(t, s, region, core, ip, port);
            && (o == Abort(ChannelFull) <==> s.atCh[region] == 64)
            && (o == Abort(CoreFull) <==> s.atCh[region] != 64 && s.atCore[core] == 64)
  {
    var i := FindEntry(s.entries, core, ip, port);
    if i < |s.entries| {
      assert false;
    }
  }

  // ----- closing -----

  lemma CloseOwn(t: Regions, s: State, core: nat, k: nat)
    requires Sized(t, s) && core < CORES && k < SESSIONS_PER_CORE
    ensures var i := core * SESSIONS_PER_CORE + k;
            CloseHandle(t, s, ConnHandle(core, k))
            == if s.sess[i].Live? then Done(DropSession(t, s, i, Free), 0) else Done(s, -1)
  {
    OwnHandle(core, k);
  }

  lemma DropClears(t: Regions, s: State, i: nat)
    requires Core(t, s) && i < SESSIONS
    ensures var s' := DropSession(t, s, i, Free);
            && Core(t, s') && s' == s.(slots := s'.slots, sess := s.sess[i := Free])
            && At(t, s'.slots, TCP_TX_FULL_PKT, i) == At(t, s'.slots, TCP_TX_EMPTY_ACK, i) == NoAction
  {
    DropKeeps(t, s, i, Free);
    var s' := DropSession(t, s, i, Free);
    assert SlotRight(t, s', TCP_TX_FULL_PKT, i) && SlotRight(t, s', TCP_TX_EMPTY_ACK, i);
  }

  // A handle closes its session if that is live, and answers -1 if not.
  lemma HandleCloses(t: Regions, s: State, core: nat, k: nat, i: nat)
    requires Core(t, s) && core < CORES && k < SESSIONS_PER_CORE && i == core * SESSIONS_PER_CORE + k
    ensures var o := CloseHandle(t, s, ConnHandle(core, k));
            if !s.sess[i].Live? then o == Done(s, -1)
            else
              && o.Done? && o.ret == 0 && Core(t, o.s) && o.s == s.(slots := o.s.slots, sess := s.sess[i := Free])
              && At(t, o.s.slots, TCP_TX_FULL_PKT, i) == At(t, o.s.slots, TCP_TX_EMPTY_ACK, i) == NoAction
  {
    CloseOwn(t, s, core, k);
    DropClears(t, s, i);
  }

  // No other handle closes anything, but the second one of session 0.
  lemma OtherHandlesDoNothing(t: Regions, s: State, h: int)
    requires Sized(t, s) && IsHandle(h)
    requires forall core: nat, k: nat | core < CORES && k < SESSIONS_PER_CORE :: h != ConnHandle(core, k)
    requires forall core: nat | core < CORES :: h != ConnHandle(core, 0) - 0x8000
    ensures CloseHandle(t, s, h) == Done(s, -1)
  {
    var core, k := CoreOfHandle(h), SessOfHandle(h);
    if 0 <= core < CORES && 0 <= k < SESSIONS_PER_CORE {
      HandleResolves(h, core, k);
      assert false;
    }
  }

  // The other fields decide what the slots hold.
  lemma SlotsAreDecided(t: Regions, a: State, b: State)
    requires Core(t, a) && Core(t, b) && a.(slots := b.slots) == b
    ensures a == b
  {
    forall g | 0 <= g < |a.slots| ensures a.slots[g] == b.slots[g] {
      IndexRoundTrip(t, 0, 0, g);
      var r, l := RegionOf(t, g, |t|), LocalOf(t, g);
      assert SlotRight(t, a, r, l) && SlotRight(t, b, r, l);
    }
    assert a.slots == b.slots;
  }

  // s1 is s with session i made.
  ghost predicate Made(t: Regions, s: State, s1: State, i: nat) {
    && Core(t, s) && Core(t, s1) && i < SESSIONS && i % SESSIONS_PER_CORE != CONTROL_SESS_ID
    && s.sess[i].Free? && s1 == s.(slots := s1.slots, sess := s.sess[i := Live])
  }

  lemma OpenMakes(t: Regions, s: State, c: nat)
    requires Inv(t, s) && c < CORES && s.up[c] && OpenSocket(t, s, c).Done?
    ensures var o := OpenSocket(t, s, c);
            && c * SESSIONS_PER_CORE <= o.ret < c * SESSIONS_PER_CORE + CONTROL_SESS_ID && Made(t, s, o.s, o.ret)
  {
    OpenIsMake(t, s, c);
    MakeKeeps(t, s, c * SESSIONS_PER_CORE + FreeSession(s.sess, c, 0));
  }

  lemma OpenIsMake(t: Regions, s: State, c: nat)
    requires Sized(t, s) && c < CORES && s.up[c] && OpenSocket(t, s, c).Done?
    ensures var k := FreeSession(s.sess, c, 0);
            && k < CONTROL_SESS_ID && s.sess[c * SESSIONS_PER_CORE + k].Free?
            && OpenSocket(t, s, c) == MakeSession(t, s, c * SESSIONS_PER_CORE + k)
  {
  }

  lemma HandleUndoes(t: Regions, s: State, s1: State, c: nat, k: nat)
    requires c < CORES && k < SESSIONS_PER_CORE && Made(t, s, s1, c * SESSIONS_PER_CORE + k)
    ensures CloseHandle(t, s1, ConnHandle(c, k)) == Done(s, 0)
  {
    var i := c * SESSIONS_PER_CORE + k;
    HandleCloses(t, s1, c, k, i);
    assert s.sess[i := Live][i := Free] == s.sess;
    SlotsAreDecided(t, CloseHandle(t, s1, ConnHandle(c, k)).s, s);
  }

  // The two steps of closing session i lead from s1 to s.
  ghost predicate ClosesTo(t: Regions, s1: State, i: nat, s: State)
    requires Sized(t, s1)
  {
    Enabled(t, s1, BeginClose(i)) &&
    var o := Apply(t, s1, BeginClose(i));
    o.Done? && Sized(t, o.s) && Enabled(t, o.s, EndClose(i)) && Apply(t, o.s, EndClose(i)) == Done(s, 0)
  }

  lemma TwoSteps(t: Regions, s: State, s1: State, i: nat)
    requires Made(t, s, s1, i)
    ensures ClosesTo(t, s1, i, s)
  {
    DropKeeps(t, s1, i, Closing);
    var s2 := DropSession(t, s1, i, Closing);
    EndKeeps(t, s2, i);
    assert s.sess[i := Live][i := Closing][i := Free] == s.sess;
    SlotsAreDecided(t, s2.(sess := s2.sess[i := Free]), s);
  }

  // Closing the session that a socket was given, by its handle or in two steps, leads back to
  // the tables as they were.
  lemma CloseUndoesOpen(t: Regions, s: State, c: nat)
    requires Inv(t, s) && c < CORES && s.up[c] && OpenSocket(t, s, c).Done?
    ensures var o := OpenSocket(t, s, c);
            && c * SESSIONS_PER_CORE <= o.ret < c * SESSIONS_PER_CORE + CONTROL_SESS_ID && Sized(t, o.s)
            && CloseHandle(t, o.s, ConnHandle(c, o.ret - c * SESSIONS_PER_CORE)) == Done(s, 0)
            && ClosesTo(t, o.s, o.ret, s)
  {
    OpenMakes(t, s, c);
    var o := OpenSocket(t, s, c);
    HandleUndoes(t, s, o.s, c, o.ret - c * SESSIONS_PER_CORE);
    TwoSteps(t, s, o.s, o.ret);
  }
}
