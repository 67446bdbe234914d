/**
 The decompressor for .z80 snapshots (esp32/main/sna.c): its state machine as a function, the
 code it is meant to read, and how its two versions are related.
 */
module Z80 {
  import opened Basics

  const ED: uint8 := 0xED

  // The states Z80D_*, in the order of esp32/main/sna_z80.h
  datatype Mode = Raw | Ed0 | Ed1 | Len | Zero | Zed0 | Zed1 | Eof

  datatype State = State(mode: Mode, repcnt: uint8)

  const START := State(Raw, 0)

  /** One input byte: the next state and what is written. */
  function Step(version: int, st: State, v: uint8): (State, seq<uint8>)
    requires st.mode != Eof
  {
    match st.mode
    case Raw =>
      if v == ED then (st.(mode := Ed0), [])
      else if version == 1 && v == 0 then (st.(mode := Zero), [])
      else (st, [v])
    case Ed0 =>
      if v == ED then (st.(mode := Ed1), []) else (st.(mode := Raw), [ED, v])
    case Ed1 =>
      (State(Len, v), [])
    case Zero =>
      if v == ED then (st.(mode := Zed0), []) else (st.(mode := Raw), [0, v])
    case Zed0 =>
      if v == ED then (st.(mode := Zed1), []) else (st.(mode := Raw), [0, ED, v])
    case Zed1 =>
      if v == 0 then (st.(mode := Eof), []) else (State(Len, v), [0])
    case Len =>
      // the loop's last test leaves the 8-bit counter at -1
      (State(Raw, 255), Repeat(v, st.repcnt as nat))
  }

  /** ok is false if there was data after the end marker; it is not looked at. */
  datatype Result = Result(ok: bool, st: State, out: seq<uint8>)
  {
    function After(written: seq<uint8>): Result {
      this.(out := written + out)
    }
  }

  function Run(version: int, st: State, src: seq<uint8>): Result
    decreases |src|
  {
    if src == [] then Result(true, st, [])
    else if st.mode == Eof then Result(false, st, [])
    else
      var (st1, out1) := Step(version, st, src[0]);
      Run(version, st1, src[1..]).After(out1)
  }

  /** How the input is split into chunks makes no difference to state and output. */
  lemma {:induction false} RunConcat(version: int, st: State, a: seq<uint8>, b: seq<uint8>)
    ensures var r := Run(version, st, a);
            Run(version, st, a + b) == if r.ok then Run(version, r.st, b).After(r.out) else r
    decreases |a|
  {
    hide Step;
    if a == [] {
      assert a + b == b;
      assert [] + Run(version, st, b).out == Run(version, st, b).out;
    } else if st.mode != Eof {
      assert (a + b)[1..] == a[1..] + b;
      var (st1, out1) := Step(version, st, a[0]);
      RunConcat(version, st1, a[1..], b);
      var r := Run(version, st1, a[1..]);
      if r.ok {
        Assoc(out1, r.out, Run(version, r.st, b).out);
      }
    }
  }

  lemma RunOne(version: int, st: State, v: uint8)
    ensures Run(version, st, [v])
         == if st.mode == Eof then Result(false, st, [])
            else var (st1, out1) := Step(version, st, v); Result(true, st1, out1)
  {
    hide Step;
    if st.mode != Eof {
      var (st1, out1) := Step(version, st, v);
      assert Run(version, st1, [v][1..]) == Result(true, st1, []);
      assert out1 + [] == out1;
    }
  }

  lemma RunSnoc(version: int, st: State, s: seq<uint8>, i: nat)
    requires i < |s|
    ensures var r := Run(version, st, s[..i]);
            Run(version, st, s[..i + 1])
            == if r.ok then
                 if r.st.mode == Eof then Result(false, r.st, r.out)
                 else var (st1, out1) := Step(version, r.st, s[i]); Result(true, st1, r.out + out1)
               else r
  {
    hide Step;
    assert s[..i + 1] == s[..i] + [s[i]];
    RunConcat(version, st, s[..i], [s[i]]);
    var r := Run(version, st, s[..i]);
    if r.ok {
      RunOne(version, r.st, s[i]);
    }
  }

  // ---------- The code ----------

  function Prepend(a: seq<uint8>, o: Option<seq<uint8>>): Option<seq<uint8>> {
    if o.Some? then Some(a + o.value) else None
  }

  /** ED ED n v stands for n times v; ED and a byte other than ED stand for themselves, and so
      does every other byte. None if the input ends inside one of these. */
  function Expand(s: seq<uint8>): Option<seq<uint8>> {
    if s == [] then Some([])
    else if s[0] != ED then Prepend([s[0]], Expand(s[1..]))
    else if |s| == 1 then None
    else if s[1] != ED then Prepend([ED, s[1]], Expand(s[2..]))
    else if |s| < 4 then None
    else Prepend(Repeat(s[3], s[2] as nat), Expand(s[4..]))
  }

  lemma TwoSteps(version: int, st: State, s: seq<uint8>)
    requires |s| >= 2 && st.mode != Eof && Step(version, st, s[0]).0.mode != Eof
    ensures var (st1, out1) := Step(version, st, s[0]);
            var (st2, out2) := Step(version, st1, s[1]);
            Run(version, st, s) == Run(version, st2, s[2..]).After(out1 + out2)
  {
    hide Step;
    var (st1, out1) := Step(version, st, s[0]);
    var (st2, out2) := Step(version, st1, s[1]);
    assert s[1..][1..] == s[2..];
    Assoc(out1, out2, Run(version, st2, s[2..]).out);
  }

  lemma ThroughRun(st: State, s: seq<uint8>)
    requires st.mode == Ed1
    ensures |s| < 2 ==> Run(2, st, s).ok && Run(2, st, s).st.mode != Raw
    ensures |s| >= 2 ==> Run(2, st, s) == Run(2, State(Raw, 255), s[2..]).After(Repeat(s[1], s[0] as nat))
  {
    if |s| == 1 {
      assert s == [s[0]];
      RunOne(2, st, s[0]);
    } else if |s| >= 2 {
      TwoSteps(2, st, s);
      assert [] + Repeat(s[1], s[0] as nat) == Repeat(s[1], s[0] as nat);
    }
  }

  /** Version 2 is correct: it ends in the idle state exactly on complete code, and then has
      written the expansion. It never reports an error. */
  lemma {:induction false} Version2Expands(st: State, s: seq<uint8>)
    requires st.mode == Raw
    ensures Run(2, st, s).ok
    ensures Run(2, st, s).st.mode == Raw <==> Expand(s).Some?
    ensures Expand(s).Some? ==> Run(2, st, s).out == Expand(s).value
    decreases |s|
  {
    if s == [] {
    } else if s[0] != ED {
      Version2Expands(st, s[1..]);
    } else if |s| == 1 {
      assert s == [ED];
      RunOne(2, st, ED);
    } else if s[1] != ED {
      TwoSteps(2, st, s);
      Version2Expands(Step(2, Step(2, st, s[0]).0, s[1]).0, s[2..]);
    } else {
      TwoSteps(2, st, s);
      ThroughRun(st.(mode := Ed1), s[2..]);
      if |s| >= 4 {
        assert s[2..][2..] == s[4..];
        Version2Expands(State(Raw, 255), s[4..]);
      }
    }
  }

  // ---------- Version 1 against version 2 ----------

  /** Version 1 holds back a zero while it may belong to the end marker 00 ED ED 00. */
  function Pending(st: State): seq<uint8> {
    if st.mode in {Zero, Zed0, Zed1, Eof} then [0] else []
  }

  /** The state version 2 is in when version 1 is in st. */
  function Counterpart(st: State): State {
    match st.mode
    case Zero => st.(mode := Raw)
    case Zed0 => st.(mode := Ed0)
    case Zed1 => st.(mode := Ed1)
    case Eof => State(Len, 0)
    case _ => st
  }

  lemma StepSimulates(st: State, v: uint8)
    requires st.mode != Eof
    ensures var (st1, out1) := Step(1, st, v);
            var (st2, out2) := Step(2, Counterpart(st), v);
            st2 == Counterpart(st1) && Pending(st) + out2 == out1 + Pending(st1)
  {
  }

  lemma NotEof(st: State)
    ensures Counterpart(st).mode != Eof
  {
  }

  /** Version 1 simulates version 2: on any input that does not run past the end marker, the
      states correspond, and version 1 has written the same but for the byte it holds back. */
  lemma {:induction false} Version1Simulates(st: State, s: seq<uint8>)
    requires Run(1, st, s).ok
    ensures var r1, r2 := Run(1, st, s), Run(2, Counterpart(st), s);
            r2.ok && r2.st == Counterpart(r1.st) && Pending(st) + r2.out == r1.out + Pending(r1.st)
    decreases |s|
  {
    hide Step, Pending, Counterpart;
    if s == [] {
      assert Pending(st) + [] == Pending(st) == [] + Pending(st);
    } else {
      var (st1, out1) := Step(1, st, s[0]);
      NotEof(st);
      var (st2, out2) := Step(2, Counterpart(st), s[0]);
      StepSimulates(st, s[0]);
      Version1Simulates(st1, s[1..]);
      var r1, r2 := Run(1, st1, s[1..]), Run(2, st2, s[1..]);
      Assoc(Pending(st), out2, r2.out);
      Assoc(out1, Pending(st1), r2.out);
      Assoc(out1, r1.out, Pending(r1.st));
    }
  }

  // ---------- When version 1 finds the end marker ----------

  const MARKER: seq<uint8> := [0, ED, ED, 0]

  /** Can version 1 read this code up to an end marker after it? `odd` says whether an odd number
      of literal zeros comes just before. Zeros are taken in pairs, so an odd one at the end hides
      the marker, and a run of length 0 after an odd one looks like the marker. */
  predicate Readable(s: seq<uint8>, odd: bool) {
    if s == [] then !odd
    else if s[0] != ED then Readable(s[1..], s[0] == 0 && !odd)
    else if |s| == 1 then false
    else if s[1] != ED then Readable(s[2..], false)
    else if |s| < 4 then false
    else !(odd && s[2] == 0) && Readable(s[4..], false)
  }

  /** Where version 1 is between two pieces of code. */
  function Between(repcnt: uint8, odd: bool): State {
    State(if odd then Zero else Raw, repcnt)
  }

  lemma FourSteps(version: int, st: State, s: seq<uint8>)
    requires |s| >= 4 && st.mode != Eof
    requires Step(version, st, s[0]).0.mode != Eof
    requires Step(version, Step(version, st, s[0]).0, s[1]).0.mode != Eof
    requires Step(version, Step(version, Step(version, st, s[0]).0, s[1]).0, s[2]).0.mode != Eof
    ensures var (st1, out1) := Step(version, st, s[0]);
            var (st2, out2) := Step(version, st1, s[1]);
            var (st3, out3) := Step(version, st2, s[2]);
            var (st4, out4) := Step(version, st3, s[3]);
            Run(version, st, s) == Run(version, st4, s[4..]).After(out1 + out2 + (out3 + out4))
  {
    hide Step;
    TwoSteps(version, st, s);
    var st2 := Step(version, Step(version, st, s[0]).0, s[1]).0;
    TwoSteps(version, st2, s[2..]);
    assert s[2..][2..] == s[4..];
  }

  predicate SameEnd(a: Result, b: Result) {
    a.ok == b.ok && a.st == b.st
  }

  lemma AfterLiteral(repcnt: uint8, odd: bool, t: seq<uint8>)
    requires t != [] && t[0] != ED
    ensures SameEnd(Run(1, Between(repcnt, odd), t), Run(1, Between(repcnt, t[0] == 0 && !odd), t[1..]))
  {
  }

  lemma AfterLoneEd(repcnt: uint8, odd: bool, t: seq<uint8>)
    requires |t| >= 2 && t[0] == ED != t[1]
    ensures SameEnd(Run(1, Between(repcnt, odd), t), Run(1, Between(repcnt, false), t[2..]))
  {
    TwoSteps(1, Between(repcnt, odd), t);
  }

  lemma AfterRun(repcnt: uint8, odd: bool, t: seq<uint8>)
    requires |t| >= 4 && t[0] == t[1] == ED && !(odd && t[2] == 0)
    ensures SameEnd(Run(1, Between(repcnt, odd), t), Run(1, Between(255, false), t[4..]))
  {
    FourSteps(1, Between(repcnt, odd), t);
  }

  lemma AtMarker(repcnt: uint8, odd: bool)
    ensures var r := Run(1, Between(repcnt, odd), MARKER); r.ok && (r.st.mode == Eof <==> !odd)
  {
    FourSteps(1, Between(repcnt, odd), MARKER);
  }

  lemma ZeroIfOdd(repcnt: uint8)
    ensures Between(repcnt, true).mode == Zero
  {
  }

  lemma MarkerTooEarly(st: State, t: seq<uint8>)
    requires |t| > 3 && st.mode == Zero && t[0] == t[1] == ED && t[2] == 0
    ensures !Run(1, st, t).ok
  {
    TwoSteps(1, st, t);
    var u := t[2..];
    assert u[0] == 0 && |u| > 1;
  }

  /** Readable code leads version 1 to the marker; unreadable complete code does not. */
  lemma {:induction false} MarkedState(repcnt: uint8, odd: bool, s: seq<uint8>)
    requires Expand(s).Some?
    ensures var r := Run(1, Between(repcnt, odd), s + MARKER);
            r.ok && r.st.mode == Eof <==> Readable(s, odd)
    decreases |s|
  {
    hide Step, Run, Between;
    var t := s + MARKER;
    if s == [] {
      assert t == MARKER;
      AtMarker(repcnt, odd);
    } else if s[0] != ED {
      assert t[1..] == s[1..] + MARKER;
      AfterLiteral(repcnt, odd, t);
      MarkedState(repcnt, s[0] == 0 && !odd, s[1..]);
    } else if s[1] != ED {
      assert t[2..] == s[2..] + MARKER;
      AfterLoneEd(repcnt, odd, t);
      MarkedState(repcnt, false, s[2..]);
    } else if odd && s[2] == 0 {
      assert Between(repcnt, odd).mode == Zero by { ZeroIfOdd(repcnt); }
      MarkerTooEarly(Between(repcnt, odd), t);
    } else {
      assert t[4..] == s[4..] + MARKER;
      AfterRun(repcnt, odd, t);
      MarkedState(255, false, s[4..]);
    }
  }

  lemma Version2OnMarked(s: seq<uint8>)
    requires Expand(s).Some?
    ensures Run(2, START, s + MARKER).out == Expand(s).value + [0]
  {
    Version2Expands(START, s);
    RunConcat(2, START, s, MARKER);
    var st := Run(2, START, s).st;
    FourSteps(2, st, MARKER);
  }

  /** Version 1 on complete code followed by the end marker: it stops at the marker having
      written exactly the expansion if and only if the code is readable. */
  lemma Version1Decodes(s: seq<uint8>)
    requires Expand(s).Some?
    ensures var r := Run(1, START, s + MARKER);
            Readable(s, false) <==> r.ok && r.st.mode == Eof && r.out == Expand(s).value
  {
    hide Readable, Step;
    MarkedState(0, false, s);
    var r := Run(1, START, s + MARKER);
    if r.ok && r.st.mode == Eof {
      Version1Simulates(START, s + MARKER);
      Version2OnMarked(s);
      assert r.out + [0] == Expand(s).value + [0];
      assert r.out == (r.out + [0])[..|r.out|] == (Expand(s).value + [0])[..|Expand(s).value|];
    }
  }

  /** The end marker after a single zero is missed. */
  lemma MarkerMissed()
    ensures Expand([0]) == Some([0])
    ensures Run(1, START, [0] + MARKER).st.mode != Eof
  {
    assert Expand([0][1..]) == Some([]);
    assert [0] + [] == [0 as uint8];
    assert !Readable([0], false) by { assert !Readable([0][1..], true); }
    MarkedState(0, false, [0]);
    assert [0] + MARKER == [0, 0, ED, ED, 0];
    var t: seq<uint8> := [0, 0, ED, ED, 0];
    TwoSteps(1, START, t);
    TwoSteps(1, START, t[2..]);
    assert t[2..][2..] == [0];
    RunOne(1, State(Ed1, 0), 0);
  }

  /** The code in numbers: 0xED 0xED n v stands for n times v. Any byte but 0xED stands for itself,
      0xED does with a byte behind it that is not 0xED, and the marker is 0 0xED 0xED 0. */
  lemma CodeInNumbers(n: uint8, v: uint8, s: seq<uint8>)
    requires Expand(s).Some?
    ensures Expand([0xED, 0xED, n, v] + s) == Some(Repeat(v, n as nat) + Expand(s).value)
    ensures v != 0xED ==> Expand([v] + s) == Some([v] + Expand(s).value)
    ensures v != 0xED ==> Expand([0xED, v] + s) == Some([0xED, v] + Expand(s).value)
    ensures MARKER == [0, 0xED, 0xED, 0]
  {
    assert ([0xED, 0xED, n, v] + s)[4..] == s && ([v] + s)[1..] == s && ([0xED, v] + s)[2..] == s;
  }
}
