/** What bouncing contacts do to a button: when it is taken to be down, up, and released. */
module ButtonBounces {
  import opened Basics
  import opened Buttons

  // ---------- Steady levels ----------

  /** Ten low samples bring any button down and ten high ones bring it up, whatever came before, and
      more of them keep it there. */
  lemma SteadyLevels(b: Button, n: nat)
    requires InRange(b) && n >= 10
    ensures Run(b, Repeat(false, n)).0.debounce == 0
    ensures Run(b, Repeat(true, n)).0 == Button(10, 0)
  {
    hide Run;
    LowRun(b, n);
    HighRun(b, n);
  }

  /** A press that has begun and is held long enough is reported to the end as a long one. */
  lemma HeldLongEnough(b: Button, n: nat)
    requires InRange(b) && 0 < b.counter < PRESS_LONG && n >= 10 + 254
    ensures Unfinished(b.counter) + Run(b, Repeat(false, n)).1 == [Pressed, LongPressed]
    ensures Run(b, Repeat(false, n)).0.counter == 255 || Run(b, Repeat(false, n)).0.counter == 254
  {
    hide Run;
    LowRun(b, n);
  }

  lemma LowFrom(b: Button, n: nat)
    requires InRange(b) && b.counter == 0
    ensures Run(b, Repeat(false, n)).1 == Unfinished(LowCounter(b, n))
  {
    hide Run;
    LowRun(b, n);
    var e := Run(b, Repeat(false, n)).1;
    assert Unfinished(0) + e == e;
  }

  /** When a clean press is reported, in samples: from a button that is up, and after a start with
      the button down. */
  lemma PressTimes()
    ensures Run(INIT, Repeat(false, 9)).1 == [] && Run(INIT, Repeat(false, 10)).1 == [Pressed]
    ensures Run(Button(10, 0), Repeat(false, 16)).1 == [] && Run(Button(10, 0), Repeat(false, 17)).1 == [Pressed]
    ensures Run(Button(10, 0), Repeat(false, 262)).1 == [Pressed]
    ensures Run(Button(10, 0), Repeat(false, 263)).1 == [Pressed, LongPressed]
  {
    hide Run;
    LowFrom(INIT, 9);
    LowFrom(INIT, 10);
    LowFrom(Button(10, 0), 16);
    LowFrom(Button(10, 0), 17);
    LowFrom(Button(10, 0), 262);
    LowFrom(Button(10, 0), 263);
  }

  // ---------- Bounces while the button is held ----------

  /** By how many the high samples outnumber the low ones. */
  function Net(w: seq<bool>): int {
    if w == [] then 0 else Net(w[..|w| - 1]) + if w[|w| - 1] then 1 else -1
  }

  /** In no stretch do the high samples outnumber the low ones by ten. */
  ghost predicate Calm(w: seq<bool>) {
    forall i, j :: 0 <= i <= j <= |w| ==> Net(w[i..j]) < 10
  }

  /** The most by which they do at the end. */
  function Excess(w: seq<bool>): nat {
    if w == [] then 0
    else
      var before := Excess(w[..|w| - 1]);
      if w[|w| - 1] then before + 1 else if before > 0 then before - 1 else 0
  }

  lemma NetSnoc(w: seq<bool>, x: bool)
    ensures Net(w + [x]) == Net(w) + if x then 1 else -1
  {
    assert (w + [x])[..|w|] == w;
  }

  lemma {:induction false} ExcessIsMost(w: seq<bool>) returns (k: nat)
    ensures k <= |w| && Net(w[k..]) == Excess(w)
    ensures forall i :: 0 <= i <= |w| ==> Net(w[i..]) <= Excess(w)
  {
    if w == [] {
      k := 0;
      assert w[0..] == [];
    } else {
      var v, x := w[..|w| - 1], w[|w| - 1];
      k := ExcessIsMost(v);
      forall i | 0 <= i <= |v| ensures Net(w[i..]) == Net(v[i..]) + if x then 1 else -1 {
        assert w[i..] == v[i..] + [x];
        NetSnoc(v[i..], x);
      }
      assert w[|w|..] == [];
      if !x && Excess(v) == 0 {
        k := |w|;
      }
      forall i | 0 <= i <= |w| ensures Net(w[i..]) <= Excess(w) {
        if i < |w| {
          assert Net(v[i..]) <= Excess(v);
        }
      }
    }
  }

  /** Calm samples, one by one. */
  lemma CalmPrefixes(w: seq<bool>)
    ensures Calm(w) <==> forall j :: 0 <= j <= |w| ==> Excess(w[..j]) < 10
  {
    forall j | 0 <= j <= |w|
      ensures Calm(w) ==> Excess(w[..j]) < 10
      ensures Excess(w[..j]) < 10 ==> forall i :: 0 <= i <= j ==> Net(w[i..j]) < 10
    {
      var k := ExcessIsMost(w[..j]);
      assert w[..j][k..] == w[k..j];
      forall i | 0 <= i <= j ensures Net(w[i..j]) <= Excess(w[..j]) {
        assert w[..j][i..] == w[i..j];
      }
    }
  }

  predicate IsRelease(e: Event) {
    e == Released || e == LongReleased
  }

  ghost predicate HasRelease(w: seq<Event>) {
    exists e :: e in w && IsRelease(e)
  }

  lemma ReleaseConcat(a: seq<Event>, b: seq<Event>)
    ensures HasRelease(a + b) <==> HasRelease(a) || HasRelease(b)
  {
    forall e ensures e in a + b <==> e in a || e in b {
    }
  }

  lemma OneSample(b: Button, high: bool)
    requires InRange(b) && b.counter > 0 && b.debounce < 10
    ensures var (b1, e) := Sample(b, high);
            var d := if high then b.debounce + 1 else if b.debounce > 0 then b.debounce - 1 else 0;
            if d < 10 then InRange(b1) && b1.counter > 0 && b1.debounce == d && !HasRelease(e) else HasRelease(e)
  {
    var e := Sample(b, high).1;
    assert e != [] ==> e[0] in e;
  }

  /** A held button follows the excess of its samples as long as they are calm. */
  lemma {:induction false} Follows(b: Button, w: seq<bool>)
    requires InRange(b) && b.counter > 0 && b.debounce == 0
    requires forall j :: 0 <= j <= |w| ==> Excess(w[..j]) < 10
    ensures var (b1, e) := Run(b, w);
            InRange(b1) && b1.counter > 0 && b1.debounce == Excess(w) && !HasRelease(e)
  {
    hide Sample;
    if w == [] {
      RunEmpty(b);
    } else {
      var v, x := w[..|w| - 1], w[|w| - 1];
      forall j | 0 <= j <= |v| ensures Excess(v[..j]) < 10 {
        assert v[..j] == w[..j];
      }
      assert w[..|w|] == w;
      Follows(b, v);
      RunSnoc(b, v, x);
      assert w == v + [x];
      hide Run;
      var (b1, e1) := Run(b, v);
      OneSample(b1, x);
      ReleaseConcat(e1, Sample(b1, x).1);
    }
  }

  lemma {:induction false} FirstExcess(w: seq<bool>, j: nat) returns (k: nat)
    requires j <= |w| && Excess(w[..j]) >= 10
    ensures k < |w| && Excess(w[..k + 1]) == 10 && forall i :: 0 <= i <= k ==> Excess(w[..i]) < 10
    decreases j
  {
    if i: nat :| i < j && Excess(w[..i]) >= 10 {
      k := FirstExcess(w, i);
    } else {
      k := j - 1;
      assert w[..j][..k] == w[..k];
    }
  }

  lemma ExcessStep(w: seq<bool>, x: bool)
    ensures Excess(w + [x]) == if x then Excess(w) + 1 else if Excess(w) > 0 then Excess(w) - 1 else 0
  {
    assert (w + [x])[..|w|] == w;
  }

  /** A button that is held is taken to be released exactly if in some stretch of its samples the
      high ones outnumber the low ones by ten. */
  lemma ReleasedIffNotCalm(b: Button, w: seq<bool>)
    requires InRange(b) && b.counter > 0 && b.debounce == 0
    ensures HasRelease(Run(b, w).1) <==> !Calm(w)
  {
    hide Run, Sample, Excess, Calm;
    CalmPrefixes(w);
    if j :| 0 <= j <= |w| && Excess(w[..j]) >= 10 {
      var k := FirstExcess(w, j);
      var v := w[..k];
      forall i | 0 <= i <= |v| ensures Excess(v[..i]) < 10 {
        assert v[..i] == w[..i];
      }
      Follows(b, v);
      var (b1, e1) := Run(b, v);
      RunSnoc(b, v, w[k]);
      assert w[..k + 1] == v + [w[k]];
      ExcessStep(v, w[k]);
      OneSample(b1, w[k]);
      ReleaseConcat(e1, Sample(b1, w[k]).1);
      RunConcat(b, w[..k + 1], w[k + 1..]);
      assert w == w[..k + 1] + w[k + 1..];
      ReleaseConcat(Run(b, w[..k + 1]).1, Run(Run(b, w[..k + 1]).0, w[k + 1..]).1);
    } else {
      Follows(b, w);
    }
  }
}
