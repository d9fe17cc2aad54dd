// In report-only mode the hardware reports its fires and sends nothing. What that leaves
// behind.
module FastPathReportOnly {
  import opened Options
  import opened FastPath
  import opened FastPathTheorems

  // The feedback of packets that software sent.
  function SoftCopies(copies: seq<Copy>): seq<Copy> {
    if copies == [] then []
    else (if copies[0].fromHw then [] else [copies[0]]) + SoftCopies(copies[1..])
  }

  function StripSession(o: Session): Session { o.(copies := SoftCopies(o.copies)) }

  // The state without the feedback of fires.
  function Strip(s: State): (r: State)
    ensures |r.ss| == |s.ss|
  {
    s.(ss := seq(|s.ss|, x requires 0 <= x < |s.ss| => StripSession(s.ss[x])))
  }

  // Fires, and the reading of their feedback.
  predicate IsFire(c: Action, s: State)
    requires Enabled(c, s)
  {
    (c.World? && c.wop.HwFire?) || (c.Serve? && c.vop.TakeCopy? && s.ss[c.x].copies[0].fromHw)
  }

  lemma {:induction false} SoftAppend(copies: seq<Copy>, c: Copy)
    ensures SoftCopies(copies + [c]) == SoftCopies(copies) + if c.fromHw then [] else [c]
    decreases |copies|
  {
    var more := copies + [c];
    if copies == [] {
      assert more[1..] == [];
    } else {
      assert more[1..] == copies[1..] + [c];
      SoftAppend(copies[1..], c);
    }
  }

  lemma StripUpdate(s: State, x: nat, o: Session)
    requires x < |s.ss|
    ensures Strip(s.(ss := s.ss[x := o])) == Strip(s).(ss := Strip(s).ss[x := StripSession(o)])
  {
    assert Strip(s.(ss := s.ss[x := o])).ss == Strip(s).ss[x := StripSession(o)];
  }

  // Nothing but feedback changes: no counter, no thread, no byte on the wire.
  lemma FireChangesFeedbackOnly(s: State, c: Action)
    requires s.reportOnly && Enabled(c, s) && IsFire(c, s)
    ensures Strip(Apply(c, s)) == Strip(s)
    ensures Apply(c, s) == s.(ss := s.ss[c.x := s.ss[c.x].(copies := NextSession(c, s).copies)])
  {
    var o := s.ss[c.x];
    if c.World? {
      SoftAppend(o.copies, Copy(c.wop.len, true));
    }
    var o' := NextSession(c, s);
    assert Apply(c, s) == s.(ss := s.ss[c.x := o']);
    assert StripSession(o') == StripSession(o);
    StripUpdate(s, c.x, o');
    assert Strip(s).ss[c.x := StripSession(o)] == Strip(s).ss;
  }

  lemma OtherSessionSame(s: State, c: Action)
    requires Enabled(c, s) && !IsFire(c, s)
    ensures Enabled(c, Strip(s)) && NextSession(c, Strip(s)) == StripSession(NextSession(c, s))
  {
    var o := s.ss[c.x];
    assert Strip(s).ss[c.x] == StripSession(o);
    if c.World? && c.wop.FpgaSend? {
      SoftAppend(o.copies, Copy(o.txq[0], false));
    }
  }

  // Every other step goes the same way without that feedback.
  lemma OtherStepSame(s: State, c: Action)
    requires s.reportOnly && Enabled(c, s) && !IsFire(c, s)
    ensures Enabled(c, Strip(s)) && Apply(c, Strip(s)) == Strip(Apply(c, s))
  {
    OtherSessionSame(s, c);
    StripUpdate(s, c.x, NextSession(c, s));
  }

  // The run without its fires.
  function Erased(s: State, cs: seq<Action>): seq<Action>
    requires Run(s, cs).Some?
    decreases |cs|
  {
    if cs == [] then []
    else (if IsFire(cs[0], s) then [] else [cs[0]]) + Erased(Apply(cs[0], s), cs[1..])
  }

  // Fires leave no trace: a report-only run ends, but for feedback of fires, where the same
  // run without them ends.
  lemma {:induction false} FiresLeaveNoTrace(s: State, cs: seq<Action>)
    requires s.reportOnly && Run(s, cs).Some?
    ensures Run(Strip(s), Erased(s, cs)) == Some(Strip(Run(s, cs).value))
    decreases |cs|
  {
    if cs != [] {
      var c, s1 := cs[0], Apply(cs[0], s);
      FiresLeaveNoTrace(s1, cs[1..]);
      if IsFire(c, s) {
        FireChangesFeedbackOnly(s, c);
        assert Erased(s, cs) == Erased(s1, cs[1..]);
      } else {
        OtherStepSame(s, c);
        assert Erased(s, cs)[1..] == Erased(s1, cs[1..]);
      }
    }
  }

  lemma {:induction false} NoneFired(s: State, cs: seq<Action>, x: nat)
    requires s.reportOnly && Run(s, cs).Some? && x < |s.ss|
    requires !s.serv.CountHwF? && !s.serv.CountHwGf?
    ensures var s' := Run(s, cs).value;
            x < |s'.ss| && s'.ss[x].hwFired == s.ss[x].hwFired && s'.ss[x].hwCounted == s.ss[x].hwCounted
    decreases |cs|
  {
    if cs != [] {
      NoneFired(Apply(cs[0], s), cs[1..], x);
    }
  }

  // So in report-only mode no byte is ever fired, and none counted for the hardware.
  lemma ReportOnlyFiresNothing(s0: State, cs: seq<Action>, s: State, x: nat)
    requires Reached(s0, cs, s) && s.reportOnly && x < |s.ss|
    ensures s.ss[x].hwFired == 0 && s.ss[x].hwCounted == 0
  {
    ModeStays(s0, cs);
    NoneFired(s0, cs, x);
    assert IsFresh(s0.ss[x]);
  }

  lemma {:induction false} ModeStays(s: State, cs: seq<Action>)
    requires Run(s, cs).Some?
    ensures Run(s, cs).value.reportOnly == s.reportOnly && |Run(s, cs).value.ss| == |s.ss|
    decreases |cs|
  {
    if cs != [] {
      ModeStays(Apply(cs[0], s), cs[1..]);
    }
  }
}
