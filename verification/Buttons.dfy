/** Debouncing and long presses of the board's buttons, esp32/main/buttons.c. */
module Buttons {
  import opened Basics

  const DEBOUNCE_MAX := 10
  const PRESS_SHORT := 8
  const PRESS_LONG := 254
  const PRESS_MAX := 255

  datatype Event = Pressed | LongPressed | Released | LongReleased

  datatype Button = Button(debounce: nat, counter: nat)

  const INIT := Button(3, 0)

  predicate InRange(b: Button) {
    b.debounce <= DEBOUNCE_MAX && b.counter <= PRESS_MAX
  }

  /** One sample of the pin (false is down): the new state and at most one event. */
  function Sample(b: Button, high: bool): (Button, seq<Event>) {
    var d := if !high then (if b.debounce > 0 then b.debounce - 1 else 0)
             else if b.debounce < DEBOUNCE_MAX then b.debounce + 1 else b.debounce;
    if d == 0 then
      var c := if b.counter < PRESS_MAX then b.counter + 1 else b.counter;
      (Button(d, c),
       if c == PRESS_SHORT then [Pressed] else if c == PRESS_LONG then [LongPressed] else [])
    else if d == DEBOUNCE_MAX && b.counter != 0 then
      (Button(d, 0), [if b.counter >= PRESS_LONG then LongReleased else Released])
    else (Button(d, b.counter), [])
  }

  function Run(b: Button, samples: seq<bool>): (Button, seq<Event>)
    decreases |samples|
  {
    if samples == [] then (b, [])
    else
      var (b1, e1) := Sample(b, samples[0]);
      var (b2, e2) := Run(b1, samples[1..]);
      (b2, e1 + e2)
  }

  function Tagged(index: nat, events: seq<Event>): seq<(nat, Event)> {
    if events == [] then [] else [(index, events[0])] + Tagged(index, events[1..])
  }

  /** The two buttons as the timer interrupt sees them; `events` is what it has sent. */
  class Board {
    const debounce: array<nat>
    const counters: array<nat>
    var events: seq<(nat, Event)>

    ghost predicate Valid()
      reads this
    {
      debounce.Length == counters.Length == 2 && debounce != counters
    }

    ghost function Abs(index: nat): Button
      requires Valid() && index < 2
      reads this, debounce, counters
    {
      Button(debounce[index], counters[index])
    }

    constructor ()
      ensures Valid() && Abs(0) == INIT == Abs(1) && events == []
      ensures fresh(debounce) && fresh(counters)
    {
      debounce := new nat[2](_ => 3);
      counters := new nat[2](_ => 0);
      events := [];
    }

    /** button__check; v is the pin's level. */
    method Check(index: nat, v: int)
      requires Valid() && index < 2 && InRange(Abs(index))
      modifies debounce, counters, this`events
      ensures Valid() && Abs(1 - index) == old(Abs(1 - index))
      ensures Abs(index) == Sample(old(Abs(index)), v != 0).0
      ensures events == old(events) + Tagged(index, Sample(old(Abs(index)), v != 0).1)
    {
      var event: seq<Event> := [];
      if v == 0 {
        if debounce[index] > 0 {
          debounce[index] := debounce[index] - 1;
        }
      } else {
        if debounce[index] < DEBOUNCE_MAX {
          debounce[index] := debounce[index] + 1;
        }
      }
      if debounce[index] == 0 {
        if counters[index] < PRESS_MAX {
          counters[index] := counters[index] + 1;
        }
        if counters[index] == PRESS_LONG {
          event := [LongPressed];
        }
        if counters[index] == PRESS_SHORT {
          event := [Pressed];
        }
      }
      if debounce[index] == DEBOUNCE_MAX {
        if counters[index] != 0 {
          if counters[index] >= PRESS_LONG {
            event := [LongReleased];
          } else {
            event := [Released];
          }
          counters[index] := 0;
        }
      }
      if event != [] {
        events := events + [(index, event[0])];
      }
    }
  }

  // ---------- The language of events ----------

  /** Any number of presses: too short to be reported, short, or long. */
  predicate Complete(w: seq<Event>) {
    w == []
    || (w[0] == Released && Complete(w[1..]))
    || (|w| >= 2 && w[0] == Pressed && w[1] == Released && Complete(w[2..]))
    || (|w| >= 3 && w[0] == Pressed && w[1] == LongPressed && w[2] == LongReleased && Complete(w[3..]))
  }

  /** What has been reported of the press in progress. */
  function Unfinished(counter: nat): seq<Event> {
    if counter < PRESS_SHORT then [] else if counter < PRESS_LONG then [Pressed] else [Pressed, LongPressed]
  }

  /** Complete presses, and perhaps the beginning of one. */
  ghost predicate Lawful(w: seq<Event>, counter: nat) {
    exists done :: Complete(done) && w == done + Unfinished(counter)
  }

  lemma {:induction false} CompleteConcat(a: seq<Event>, b: seq<Event>)
    requires Complete(a) && Complete(b)
    ensures Complete(a + b)
    decreases |a|
  {
    if a == [] {
      assert a + b == b;
    } else {
      var n := if a[0] == Released then 1 else if a[1] == Released then 2 else 3;
      assert (a + b)[n..] == a[n..] + b;
      CompleteConcat(a[n..], b);
    }
  }

  lemma CompletePieces()
    ensures Complete([]) && Complete([Released]) && Complete([Pressed, Released])
    ensures Complete([Pressed, LongPressed, LongReleased])
  {
    assert [Released][1..] == [] && [Pressed, Released][2..] == [];
    assert [Pressed, LongPressed, LongReleased][3..] == [];
  }

  lemma CheckKeeps(b: Button, high: bool)
    requires InRange(b)
    ensures InRange(Sample(b, high).0)
  {
  }

  lemma ExtendLawful(done: seq<Event>, unfinished: seq<Event>, e: seq<Event>, counter: nat)
    requires Complete(done) && unfinished + e == Unfinished(counter)
    ensures Lawful(done + unfinished + e, counter)
  {
    Assoc(done, unfinished, e);
  }

  lemma EndLawful(done: seq<Event>, unfinished: seq<Event>, e: seq<Event>)
    requires Complete(done) && Complete(unfinished + e)
    ensures Lawful(done + unfinished + e, 0)
  {
    CompleteConcat(done, unfinished + e);
    Assoc(done, unfinished, e);
    assert done + unfinished + e == done + unfinished + e + Unfinished(0);
  }

  /** One sample extends a lawful report to a lawful report. */
  lemma CheckIsLawful(b: Button, high: bool, w: seq<Event>)
    requires InRange(b) && Lawful(w, b.counter)
    ensures Lawful(w + Sample(b, high).1, Sample(b, high).0.counter)
  {
    var done :| Complete(done) && w == done + Unfinished(b.counter);
    var (b1, e) := Sample(b, high);
    var unfinished := Unfinished(b.counter);
    if e == [] || e[0] == Pressed || e[0] == LongPressed {
      assert unfinished + e == Unfinished(b1.counter);
      hide Sample, Lawful, Complete, Unfinished;
      ExtendLawful(done, unfinished, e, b1.counter);
    } else {
      CompletePieces();
      assert Complete(unfinished + e);
      EndLawful(done, unfinished, e);
    }
  }

  lemma {:induction false} RunIsLawful(b: Button, samples: seq<bool>, w: seq<Event>)
    requires InRange(b) && Lawful(w, b.counter)
    ensures var (b1, e) := Run(b, samples); InRange(b1) && Lawful(w + e, b1.counter)
    decreases |samples|
  {
    hide Sample, Lawful;
    if samples == [] {
      assert w + [] == w;
    } else {
      CheckKeeps(b, samples[0]);
      CheckIsLawful(b, samples[0], w);
      var (b1, e1) := Sample(b, samples[0]);
      RunIsLawful(b1, samples[1..], w + e1);
      assert w + e1 + Run(b1, samples[1..]).1 == w + (e1 + Run(b1, samples[1..]).1);
    }
  }

  /** Over every sample sequence the events are complete presses and perhaps the beginning of one,
      the counters saturate and the debouncing stays in its range. */
  lemma EventsAreLawful(samples: seq<bool>)
    ensures var (b, w) := Run(INIT, samples); InRange(b) && Lawful(w, b.counter)
  {
    CompletePieces();
    assert [] == [] + Unfinished(0);
    RunIsLawful(INIT, samples, []);
    assert [] + Run(INIT, samples).1 == Run(INIT, samples).1;
  }

  // ---------- Every such report occurs ----------

  lemma {:induction false} RunConcat(b: Button, s: seq<bool>, t: seq<bool>)
    ensures var (b1, e1) := Run(b, s);
            var (b2, e2) := Run(b1, t);
            Run(b, s + t) == (b2, e1 + e2)
    decreases |s|
  {
    hide Sample;
    if s == [] {
      assert s + t == t;
      assert [] + Run(b, t).1 == Run(b, t).1;
    } else {
      assert (s + t)[1..] == s[1..] + t;
      var (b1, e1) := Sample(b, s[0]);
      RunConcat(b1, s[1..], t);
      var (b2, e2) := Run(b1, s[1..]);
      assert e1 + (e2 + Run(b2, t).1) == e1 + e2 + Run(b2, t).1;
    }
  }

  lemma RunSnoc(b: Button, s: seq<bool>, high: bool)
    ensures var (b1, e1) := Run(b, s);
            Run(b, s + [high]) == (Sample(b1, high).0, e1 + Sample(b1, high).1)
  {
    hide Sample;
    RunConcat(b, s, [high]);
    var b1 := Run(b, s).0;
    var (b2, e2) := Sample(b1, high);
    assert Run(b2, [high][1..]) == (b2, []);
    assert e2 + [] == e2;
  }

  const UP := Button(DEBOUNCE_MAX, 0)

  lemma RunEmpty(b: Button)
    ensures Run(b, []) == (b, []) && Repeat(true, 0) == [] == Repeat(false, 0)
  {
  }

  /** The counter after n low samples: it starts when the debouncing has come down. */
  function LowCounter(b: Button, n: nat): nat {
    var first := if b.debounce == 0 then 1 else b.debounce;
    if n < first then b.counter
    else if b.counter + (n - first + 1) < PRESS_MAX then b.counter + (n - first + 1) else PRESS_MAX
  }

  lemma LowCounterStart(b: Button)
    ensures LowCounter(b, 0) == b.counter
  {
  }

  lemma SampleLow(b: Button)
    requires InRange(b)
    ensures Sample(b, false).0 == Button(if b.debounce > 0 then b.debounce - 1 else 0, LowCounter(b, 1))
    ensures Unfinished(b.counter) + Sample(b, false).1 == Unfinished(LowCounter(b, 1))
  {
    var u := Unfinished(b.counter);
    assert u + [] == u;
  }

  lemma LowCounterNext(b: Button, n: nat)
    requires InRange(b)
    ensures LowCounter(Button(if b.debounce > n then b.debounce - n else 0, LowCounter(b, n)), 1) == LowCounter(b, n + 1)
    ensures LowCounter(b, n) <= PRESS_MAX
  {
  }

  /** Any button held down for n samples: the debouncing goes down to 0 and stays there, the counter
      counts from then on, and the report of the press goes on with it. */
  lemma {:induction false} LowRun(b: Button, n: nat)
    requires InRange(b)
    ensures var (b1, e) := Run(b, Repeat(false, n));
            && b1 == Button(if b.debounce > n then b.debounce - n else 0, LowCounter(b, n))
            && Unfinished(b.counter) + e == Unfinished(LowCounter(b, n))
  {
    hide Sample, LowCounter, Unfinished, Repeat;
    RunEmpty(b);
    if n == 0 {
      assert LowCounter(b, 0) == b.counter by { LowCounterStart(b); }
      assert Unfinished(b.counter) + [] == Unfinished(b.counter);
    } else {
      hide Run;
      LowRun(b, n - 1);
      LowCounterNext(b, n - 1);
      RunSnoc(b, Repeat(false, n - 1), false);
      RepeatSnoc(false, n - 1);
      var (b1, e) := Run(b, Repeat(false, n - 1));
      SampleLow(b1);
      Assoc(Unfinished(b.counter), e, Sample(b1, false).1);
    }
  }

  /** Any button let go for n samples: the debouncing goes up to its maximum, and there the press
      that was in progress ends. */
  lemma {:induction false} HighRun(b: Button, n: nat)
    requires InRange(b)
    ensures Run(b, Repeat(true, n))
         == if n == 0 || b.debounce + n < DEBOUNCE_MAX then (Button(b.debounce + n, b.counter), [])
            else (UP, if b.counter == 0 then [] else [if b.counter >= PRESS_LONG then LongReleased else Released])
  {
    RunEmpty(b);
    if n > 0 {
      HighRun(b, n - 1);
      RunSnoc(b, Repeat(true, n - 1), true);
      RepeatSnoc(true, n - 1);
      var (b1, e1) := Run(b, Repeat(true, n - 1));
      var e := Sample(b1, true).1;
      hide Run;
      assert [] + e == e && e1 + [] == e1;
    }
  }

  /** A press that takes the counter to c, and its release. */
  function Press(c: nat): seq<bool>
    requires c > 0
  {
    Repeat(false, DEBOUNCE_MAX - 1 + c) + Repeat(true, DEBOUNCE_MAX)
  }

  lemma PressRun(c: nat)
    requires 0 < c <= PRESS_LONG
    ensures Run(UP, Press(c)) == (UP, Unfinished(c) + [if c >= PRESS_LONG then LongReleased else Released])
  {
    hide Run, Repeat;
    LowRun(UP, DEBOUNCE_MAX - 1 + c);
    HighRun(Button(0, c), DEBOUNCE_MAX);
    var e := Run(UP, Repeat(false, DEBOUNCE_MAX - 1 + c)).1;
    assert Unfinished(0) + e == e;
    RunConcat(UP, Repeat(false, DEBOUNCE_MAX - 1 + c), Repeat(true, DEBOUNCE_MAX));
  }

  /** Some samples produce any given complete report. */
  lemma {:induction false} Produce(w: seq<Event>) returns (samples: seq<bool>)
    requires Complete(w)
    ensures Run(UP, samples) == (UP, w)
    decreases |w|
  {
    hide Run, Press;
    if w == [] {
      samples := [];
      RunEmpty(UP);
    } else {
      var n, c := 1, 1;
      if w[0] != Released {
        if w[1] == Released {
          n, c := 2, PRESS_SHORT;
        } else {
          n, c := 3, PRESS_LONG;
        }
      }
      PressRun(c);
      var rest := Produce(w[n..]);
      RunConcat(UP, Press(c), rest);
      samples := Press(c) + rest;
      assert w == w[..n] + w[n..];
      assert w[..n] == Unfinished(c) + [if c >= PRESS_LONG then LongReleased else Released];
    }
  }

  /** The report of the press in progress can be produced too. */
  lemma Begin(counter: nat) returns (samples: seq<bool>)
    ensures Run(UP, samples).1 == Unfinished(counter)
  {
    if counter < PRESS_SHORT {
      samples := [];
      RunEmpty(UP);
    } else {
      var c := if counter < PRESS_LONG then PRESS_SHORT else PRESS_LONG;
      samples := Repeat(false, DEBOUNCE_MAX - 1 + c);
      LowRun(UP, DEBOUNCE_MAX - 1 + c);
      var e := Run(UP, samples).1;
      assert Unfinished(0) + e == e;
    }
  }

  lemma Report(w: seq<Event>, counter: nat) returns (samples: seq<bool>)
    requires Lawful(w, counter)
    ensures Run(INIT, samples).1 == w
  {
    hide Run, Repeat;
    var done :| Complete(done) && w == done + Unfinished(counter);
    var s1 := Produce(done);
    var s2 := Begin(counter);
    HighRun(INIT, 7);
    RunConcat(UP, s1, s2);
    RunConcat(INIT, Repeat(true, 7), s1 + s2);
    samples := Repeat(true, 7) + (s1 + s2);
    assert [] + w == w;
  }

  /** The event language is exact: a report occurs for some samples if and only if it consists of
      complete presses and perhaps the beginning of one. */
  lemma LanguageIsExact(w: seq<Event>)
    ensures (exists samples :: Run(INIT, samples).1 == w) <==> (exists counter :: Lawful(w, counter))
  {
    hide Run, Lawful;
    if samples :| Run(INIT, samples).1 == w {
      EventsAreLawful(samples);
    }
    if counter :| Lawful(w, counter) {
      var samples := Report(w, counter);
    }
  }
}
