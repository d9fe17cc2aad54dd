// The TCP options of a SYN-ACK, as processSynAck reads them.
module SynAck {
  import opened Checksum
  import opened PseudoChecksum

  const TCP_HDR := 20

  // What the session keeps from the options.
  datatype Learned = Learned(mss: Word16, shift: Byte)

  // Aborted is on_error. Overrun is a read past the bytes that were received, which the
  // source does not prevent.
  datatype Outcome = Parsed(learned: Learned) | Aborted | Overrun

  // The parser from some byte on: mem is what follows, left the option bytes among it.
  function Parse(mem: seq<Byte>, left: int, cur: Learned): Outcome
    decreases |mem|
  {
    if left <= 0 then Parsed(cur)
    else if mem == [] then Overrun
    else if mem[0] == 0 then (if left == 1 then Parsed(cur) else Aborted)
    else if mem[0] == 1 then Parse(mem[1..], left - 1, cur)
    else if mem[0] == 2 then
      (if |mem| < 2 then Overrun
       else if mem[1] != 4 then Aborted
       else if |mem| < 4 then Overrun
       else Parse(mem[4..], left - 4, cur.(mss := NetWord(mem[2], mem[3]))))
    else if mem[0] == 3 then
      (if |mem| < 2 then Overrun
       else if mem[1] != 3 then Aborted
       else if |mem| < 3 then Overrun
       else Parsed(cur.(shift := mem[2])))
    else Aborted
  }

  // ----- what a peer may send -----

  datatype Opt = Nop | Mss(value: Word16)

  // How the options of interest end: at the end of the area, with an end-of-list byte, or
  // with a window scale, after which nothing is read.
  datatype Tail = NoTail | EndOfList | WindowScale(shift: Byte)

  function OptBytes(o: Opt): (b: seq<Byte>)
    ensures |b| > 0
  {
    match o
    case Nop => [1]
    case Mss(v) => [2, 4] + NetBytes(v)
  }

  function TailBytes(t: Tail): seq<Byte> {
    match t
    case NoTail => []
    case EndOfList => [0]
    case WindowScale(n) => [3, 3, n]
  }

  function Encode(opts: seq<Opt>, t: Tail): seq<Byte> {
    if opts == [] then TailBytes(t) else OptBytes(opts[0]) + Encode(opts[1..], t)
  }

  // What the options say: the last MSS and the window scale, where there is one.
  function Meaning(opts: seq<Opt>, t: Tail, cur: Learned): Learned
    decreases |opts|
  {
    if opts == [] then (if t.WindowScale? then cur.(shift := t.shift) else cur)
    else Meaning(opts[1..], t, if opts[0].Mss? then cur.(mss := opts[0].value) else cur)
  }

  // Every option begins inside the area of left bytes, and the tail ends it.
  predicate Fits(left: int, opts: seq<Opt>, t: Tail)
    decreases |opts|
  {
    if opts != [] then left > 0 && Fits(left - |OptBytes(opts[0])|, opts[1..], t)
    else match t
      case NoTail => left <= 0
      case EndOfList => left == 1
      case WindowScale(_) => left > 0
  }

  // An option area that is exactly one encoding.
  lemma {:induction false} WholeAreaFits(opts: seq<Opt>, t: Tail)
    ensures Fits(|Encode(opts, t)|, opts, t)
    decreases |opts|
  {
    if opts != [] {
      WholeAreaFits(opts[1..], t);
    }
  }

  // Parsing undoes encoding, whatever follows the options.
  lemma {:induction false} ParseUndoesEncode(mem: seq<Byte>, left: int, opts: seq<Opt>, t: Tail, cur: Learned)
    requires Encode(opts, t) <= mem && Fits(left, opts, t)
    ensures Parse(mem, left, cur) == Parsed(Meaning(opts, t, cur))
    decreases |opts|
  {
    if opts == [] {
      assert t.WindowScale? ==> mem[0] == 3 && mem[1] == 3 && mem[2] == t.shift;
    } else {
      var first, rest := OptBytes(opts[0]), Encode(opts[1..], t);
      var n := |first|;
      assert mem[..n] == first by { PrefixParts(first, rest, mem); }
      assert rest <= mem[n..] by { PrefixParts(first, rest, mem); }
      var next := if opts[0].Mss? then cur.(mss := opts[0].value) else cur;
      ParseUndoesEncode(mem[n..], left - n, opts[1..], t, next);
      if opts[0].Mss? {
        assert mem[0] == first[0] && mem[1] == first[1] && mem[2] == first[2] && mem[3] == first[3];
      } else {
        assert mem[0] == first[0];
      }
    }
  }

  lemma PrefixParts(a: seq<Byte>, b: seq<Byte>, s: seq<Byte>)
    requires a + b <= s
    ensures s[..|a|] == a && b <= s[|a|..]
  {
    assert s[..|a| + |b|] == a + b;
    assert s[|a|..][..|b|] == b;
  }

  // The parser accepts an option area if and only if it is such an encoding. The last MSS
  // or window scale may hang over the end of the area: the source reads on.
  lemma {:induction false} AcceptedAreEncodings(mem: seq<Byte>, left: int, cur: Learned)
    ensures Parse(mem, left, cur).Parsed? <==>
      exists opts, t :: Encode(opts, t) <= mem && Fits(left, opts, t)
  {
    if Parse(mem, left, cur).Parsed? {
      var opts, t := ReadBack(mem, left, cur);
    }
    forall opts, t | Encode(opts, t) <= mem && Fits(left, opts, t) ensures Parse(mem, left, cur).Parsed? {
      ParseUndoesEncode(mem, left, opts, t, cur);
    }
  }

  lemma {:induction false} ReadBack(mem: seq<Byte>, left: int, cur: Learned) returns (opts: seq<Opt>, t: Tail)
    requires Parse(mem, left, cur).Parsed?
    ensures Encode(opts, t) <= mem && Fits(left, opts, t)
    decreases |mem|
  {
    if left <= 0 {
      opts, t := [], NoTail;
    } else if mem[0] == 0 {
      opts, t := [], EndOfList;
    } else if mem[0] == 3 {
      opts, t := [], WindowScale(mem[2]);
      assert mem[..3] == TailBytes(t);
    } else if mem[0] == 1 {
      opts, t := ReadBack(mem[1..], left - 1, cur);
      opts := Prepend(mem, left, Nop, opts, t);
    } else {
      opts, t := ReadBack(mem[4..], left - 4, cur.(mss := NetWord(mem[2], mem[3])));
      assert NetBytes(NetWord(mem[2], mem[3])) == [mem[2], mem[3]];
      opts := Prepend(mem, left, Mss(NetWord(mem[2], mem[3])), opts, t);
    }
  }

  lemma Prepend(mem: seq<Byte>, left: int, o: Opt, rest: seq<Opt>, t: Tail) returns (opts: seq<Opt>)
    requires left > 0 && OptBytes(o) <= mem
    requires Encode(rest, t) <= mem[|OptBytes(o)|..] && Fits(left - |OptBytes(o)|, rest, t)
    ensures opts == [o] + rest && Encode(opts, t) <= mem && Fits(left, opts, t)
  {
    opts := [o] + rest;
    assert opts[1..] == rest;
    var n, e := |OptBytes(o)|, Encode(rest, t);
    assert mem[..n] == OptBytes(o) && mem[n..][..|e|] == e;
    assert mem[..n + |e|] == OptBytes(o) + e;
  }

  // ----- reading past what was received -----

  // The beginning of an MSS or window scale option, cut off before the parser has all of it.
  predicate IsCut(c: seq<Byte>) {
    || c == [] || c == [2] || c == [3] || c == [2, 4] || c == [3, 3]
    || (|c| == 3 && c[0] == 2 && c[1] == 4)
  }

  // Options that begin inside the area of left bytes, with more of it to come.
  predicate StillOpen(left: int, opts: seq<Opt>)
    decreases |opts|
  {
    left > 0 && (opts != [] ==> StillOpen(left - |OptBytes(opts[0])|, opts[1..]))
  }

  // Whole options, then the beginning of one more.
  predicate CutAt(mem: seq<Byte>, left: int, opts: seq<Opt>, cut: seq<Byte>) {
    mem == Encode(opts, NoTail) + cut && IsCut(cut) && StillOpen(left, opts)
  }

  // Parsing steps over one whole option.
  lemma ParseOption(mem: seq<Byte>, left: int, cur: Learned, o: Opt, rest: seq<Byte>)
    requires mem == OptBytes(o) + rest && left > 0
    ensures Parse(mem, left, cur)
            == Parse(rest, left - |OptBytes(o)|, if o.Mss? then cur.(mss := o.value) else cur)
  {
    var b := OptBytes(o);
    assert mem[|b|..] == rest && mem[0] == b[0];
    if o.Mss? {
      assert mem[1] == b[1] && mem[2] == b[2] && mem[3] == b[3];
    }
  }

  lemma {:induction false} CutOverruns(mem: seq<Byte>, left: int, cur: Learned, opts: seq<Opt>, cut: seq<Byte>)
    requires CutAt(mem, left, opts, cut)
    ensures Parse(mem, left, cur).Overrun?
    decreases |opts|
  {
    if opts == [] {
      assert mem == cut;
    } else {
      var o, rest := opts[0], Encode(opts[1..], NoTail) + cut;
      assert mem == OptBytes(o) + rest;
      CutOverruns(rest, left - |OptBytes(o)|, if o.Mss? then cur.(mss := o.value) else cur, opts[1..], cut);
      ParseOption(mem, left, cur, o, rest);
    }
  }

  lemma {:induction false} OverrunIsCut(mem: seq<Byte>, left: int, cur: Learned) returns (opts: seq<Opt>, cut: seq<Byte>)
    requires Parse(mem, left, cur).Overrun?
    ensures CutAt(mem, left, opts, cut)
    decreases |mem|
  {
    if IsCut(mem) {
      opts, cut := [], mem;
      assert Encode([], NoTail) + mem == mem;
    } else if mem[0] == 1 {
      opts, cut := OverrunIsCut(mem[1..], left - 1, cur);
      opts := OpenPrepend(mem, left, Nop, opts, cut);
    } else {
      opts, cut := OverrunIsCut(mem[4..], left - 4, cur.(mss := NetWord(mem[2], mem[3])));
      assert NetBytes(NetWord(mem[2], mem[3])) == [mem[2], mem[3]];
      opts := OpenPrepend(mem, left, Mss(NetWord(mem[2], mem[3])), opts, cut);
    }
  }

  lemma OpenPrepend(mem: seq<Byte>, left: int, o: Opt, rest: seq<Opt>, cut: seq<Byte>) returns (opts: seq<Opt>)
    requires left > 0 && OptBytes(o) <= mem
    requires CutAt(mem[|OptBytes(o)|..], left - |OptBytes(o)|, rest, cut)
    ensures opts == [o] + rest && CutAt(mem, left, opts, cut)
  {
    opts := [o] + rest;
    assert opts[1..] == rest;
    var n := |OptBytes(o)|;
    assert mem == mem[..n] + mem[n..] && mem[..n] == OptBytes(o);
    assert mem == OptBytes(o) + (Encode(rest, NoTail) + cut);
  }

  // The parser reads past the received bytes if and only if they are whole options followed
  // by the cut-off beginning of one more, all of them begun inside the option area.
  lemma OverrunsExactly(mem: seq<Byte>, left: int, cur: Learned)
    ensures Parse(mem, left, cur).Overrun? <==> exists opts, cut :: CutAt(mem, left, opts, cut)
  {
    if Parse(mem, left, cur).Overrun? {
      var opts, cut := OverrunIsCut(mem, left, cur);
    }
    forall opts, cut | CutAt(mem, left, opts, cut) ensures Parse(mem, left, cur).Overrun? {
      CutOverruns(mem, left, cur, opts, cut);
    }
  }

  // Three bytes behind the option area are enough for any options.
  lemma {:induction false} NeverPastThreeBytes(mem: seq<Byte>, left: int, cur: Learned)
    requires left + 3 <= |mem|
    ensures !Parse(mem, left, cur).Overrun?
    decreases |mem|
  {
    if left > 0 {
      if mem[0] == 1 {
        NeverPastThreeBytes(mem[1..], left - 1, cur);
      } else if mem[0] == 2 && mem[1] == 4 && |mem| >= 4 {
        NeverPastThreeBytes(mem[4..], left - 4, cur.(mss := NetWord(mem[2], mem[3])));
      }
    }
  }

  // And two are not, for an area of any size: options up to an MSS in the last byte.
  lemma {:induction false} TwoBytesAreTooFew(left: nat, cur: Learned) returns (mem: seq<Byte>)
    requires left > 0
    ensures |mem| == left + 2 && Parse(mem, left, cur).Overrun?
    decreases left
  {
    if left == 1 {
      mem := [2, 4, 5];
    } else {
      var rest := TwoBytesAreTooFew(left - 1, cur);
      mem := [1] + rest;
      assert mem[1..] == rest;
    }
  }

  // The options that most peers send: an MSS, announced by bytes 2 and 4, a byte 1 to fill
  // up, and a scale, announced by bytes 3 and 3 (section 3.2 of RFC 9293, section 2.2 of
  // RFC 7323).
  lemma TypicalOptions(mem: seq<Byte>, left: nat, cur: Learned)
    requires |mem| >= 8 && left > 5 && mem[0] == 2 && mem[1] == 4 && mem[4] == 1 && mem[5] == 3 && mem[6] == 3
    ensures Parse(mem, left, cur) == Parsed(Learned(0x100 * mem[2] as int + mem[3], mem[7]))
  {
    var rest := mem[4..];
    assert rest[0] == mem[4] && rest[1] == mem[5] && rest[2] == mem[6] && rest[3] == mem[7];
    var scale := rest[1..];
    assert scale[0] == rest[1] && scale[1] == rest[2] && scale[2] == rest[3];
    var mss := NetWord(mem[2], mem[3]);
    assert Parse(mem, left, cur) == Parse(rest, left - 4, Learned(mss, cur.shift));
    assert Parse(rest, left - 4, Learned(mss, cur.shift)) == Parse(scale, left - 5, Learned(mss, cur.shift));
    assert Parse(scale, left - 5, Learned(mss, cur.shift)) == Parsed(Learned(mss, scale[2]));
  }

  // A byte 0 ends the options if it is the last one of the area, and is refused elsewhere.
  lemma EndByte(mem: seq<Byte>, left: nat, cur: Learned)
    requires mem != [] && left > 0 && mem[0] == 0
    ensures Parse(mem, left, cur) == if left == 1 then Parsed(cur) else Aborted
  {
  }

  // An option area of one byte that overruns, and one whose MSS hangs over its end.
  lemma OneByteAreas(cur: Learned)
    ensures Parse([2], 1, cur) == Overrun
    ensures Parse([2, 4, 0x05, 0xB4], 1, cur) == Parsed(cur.(mss := 1460))
  {
    assert [2, 4, 0x05, 0xB4][4..] == [];
  }
}
