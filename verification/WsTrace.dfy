/** The websocket reader in terms of what it was asked and given: the calls and the frames of a run. */
module WsTrace {
  import opened Basics
  import opened WsReader

  /** A call is taken if it is made outside a read while the websocket is open. */
  function Taken(s: State, step: Step): seq<nat> {
    match step
    case Call(n, _) => if s.pc == Idle && s.valid then [n] else []
    case _ => []
  }

  /** The sizes of the calls that were taken. */
  function Calls(s: State, steps: seq<Step>): seq<nat>
    decreases |steps|
  {
    if steps == [] then []
    else Taken(s, steps[0]) + Calls(Do(s, steps[0]), steps[1..])
  }

  /** A frame is taken if it comes while the websocket is open and fewer than two are waiting. */
  function Entered(s: State, step: Step): seq<uint8> {
    match step
    case Send(frame) => if s.valid && |s.queue| < 2 then frame else []
    case _ => []
  }

  /** The bytes of the frames that were taken. */
  function Sent(s: State, steps: seq<Step>): seq<uint8>
    decreases |steps|
  {
    if steps == [] then []
    else Entered(s, steps[0]) + Sent(Do(s, steps[0]), steps[1..])
  }

  function Sizes(rs: seq<Read>): (r: seq<nat>)
    ensures |r| == |rs| && forall i :: 0 <= i < |r| ==> r[i] == rs[i].size
  {
    seq(|rs|, i requires 0 <= i < |rs| => rs[i].size)
  }

  /** The size of the read in progress. */
  function InProgress(s: State): seq<nat> {
    if s.pc == Idle then [] else [s.asked]
  }

  function Sum(ns: seq<nat>): nat {
    if ns == [] then 0 else Sum(ns[..|ns| - 1]) + ns[|ns| - 1]
  }

  lemma SizesSnoc(rs: seq<Read>, r: Read)
    ensures Sizes(rs + [r]) == Sizes(rs) + [r.size]
  {
  }

  lemma StepDone(s: State, step: Step)
    ensures var s1 := Do(s, step);
            || (s1.done == s.done && InProgress(s1) == InProgress(s) + Taken(s, step))
            || (s.pc != Idle && s1.pc == Idle && Taken(s, step) == [] && |s1.done| == |s.done| + 1
                && s1.done == s.done + [Read(s.asked, s1.done[|s.done|].bytes)])
  {
  }

  /** Only a call that is taken begins a read, and a read is over when it is recorded. */
  lemma StepAnswers(s: State, step: Step)
    ensures Sizes(Do(s, step).done) + InProgress(Do(s, step)) == Sizes(s.done) + InProgress(s) + Taken(s, step)
  {
    StepDone(s, step);
    hide Do, Sizes, Taken;
    var s1 := Do(s, step);
    if s1.done == s.done {
      Assoc(Sizes(s.done), InProgress(s), Taken(s, step));
    } else {
      SizesSnoc(s.done, s1.done[|s.done|]);
    }
  }

  /** Over any run the sizes of the completed reads and of the one in progress are those of the
      calls that were taken, in order. */
  lemma {:induction false} CallsAnswered(s: State, steps: seq<Step>)
    ensures Sizes(Run(s, steps).done) + InProgress(Run(s, steps)) == Sizes(s.done) + InProgress(s) + Calls(s, steps)
    decreases |steps|
  {
    hide Do, Sizes, InProgress, Taken;
    var before := Sizes(s.done) + InProgress(s);
    if steps == [] {
      assert before + [] == before;
    } else {
      StepAnswers(s, steps[0]);
      CallsAnswered(Do(s, steps[0]), steps[1..]);
      Assoc(before, Taken(s, steps[0]), Calls(Do(s, steps[0]), steps[1..]));
    }
  }

  lemma StepEnters(s: State, step: Step)
    ensures Do(s, step).enqueued == s.enqueued + Entered(s, step)
  {
    assert s.enqueued + [] == s.enqueued;
  }

  /** What has entered the queue are the frames that were taken, one behind the other. */
  lemma {:induction false} SentEnqueued(s: State, steps: seq<Step>)
    ensures Run(s, steps).enqueued == s.enqueued + Sent(s, steps)
    decreases |steps|
  {
    hide Do, Entered;
    if steps == [] {
      assert s.enqueued + [] == s.enqueued;
    } else {
      StepEnters(s, steps[0]);
      SentEnqueued(Do(s, steps[0]), steps[1..]);
      Assoc(s.enqueued, Entered(s, steps[0]), Sent(Do(s, steps[0]), steps[1..]));
    }
  }

  lemma {:induction false} AskedIsSum(rs: seq<Read>)
    ensures Asked(rs) == Sum(Sizes(rs))
  {
    if rs != [] {
      var n := |rs| - 1;
      AskedIsSum(rs[..n]);
      assert Sizes(rs)[..n] == Sizes(rs[..n]);
    }
  }

  /** Read number n of a run has exactly as many bytes as call number n asked for, and they are the
      next ones of the frames: those behind what the calls before it asked for. At most the last
      call is still unanswered. */
  lemma ReadsAnswerCalls(steps: seq<Step>, i: nat)
    requires i < |Run(INIT, steps).done|
    ensures var done, calls, sent := Run(INIT, steps).done, Calls(INIT, steps), Sent(INIT, steps);
            && |done| <= |calls| <= |done| + 1
            && var from := Sum(calls[..i]);
               from + calls[i] <= |sent| && done[i].bytes == sent[from..from + calls[i]]
  {
    hide Run, Calls, Sent, Asked;
    CallsAnswered(INIT, steps);
    SentEnqueued(INIT, steps);
    ReadsAreConsecutive(steps, i);
    var s, calls := Run(INIT, steps), Calls(INIT, steps);
    assert [] + calls == calls && [] + Sent(INIT, steps) == Sent(INIT, steps);
    AskedIsSum(s.done[..i]);
    assert Sizes(s.done[..i]) == calls[..i];
  }

  lemma CallsCons(s: State, n: nat, block: bool, steps: seq<Step>)
    requires s.pc == Idle && s.valid
    ensures Calls(s, [Call(n, block)] + steps) == [n] + Calls(Do(s, Call(n, block)), steps)
  {
    hide Do;
    assert ([Call(n, block)] + steps)[1..] == steps;
  }

  lemma {:induction false} DoneGrows(s: State, steps: seq<Step>)
    ensures s.done <= Run(s, steps).done
    decreases |steps|
  {
    if steps != [] {
      StepDone(s, steps[0]);
      hide Do;
      DoneGrows(Do(s, steps[0]), steps[1..]);
    }
  }

  lemma NextBytes(s: State, k: nat)
    requires Inv(s) && k < |s.done|
    ensures var from := |Delivered(s.done[..k])|;
            && |s.done[k].bytes| == s.done[k].size && from + s.done[k].size <= |s.enqueued|
            && s.done[k].bytes == s.enqueued[from..from + s.done[k].size]
  {
    hide Delivered, Held, Flatten;
    assert s.done[k] in s.done;
    Assoc(Delivered(s.done), Held(s), Flatten(s.queue));
    ReadAt(s.done, k, Held(s) + Flatten(s.queue), s.enqueued);
  }

  /** The same for one call from anywhere between two reads: if it is ever answered, then by
      exactly the n bytes that follow those already delivered. */
  lemma NextReadAnswersCall(s: State, n: nat, block: bool, steps: seq<Step>)
    requires Inv(s) && s.pc == Idle && s.valid
    requires |Run(s, [Call(n, block)] + steps).done| > |s.done|
    ensures var s1 := Run(s, [Call(n, block)] + steps);
            var from := |Delivered(s.done)|;
            && s1.done[..|s.done|] == s.done && |s1.done[|s.done|].bytes| == n
            && from + n <= |s1.enqueued| && s1.done[|s.done|].bytes == s1.enqueued[from..from + n]
  {
    hide Do, Run, Calls, Delivered, Sizes;
    var all := [Call(n, block)] + steps;
    var s1, k := Run(s, all), |s.done|;
    CallsAnswered(s, all);
    CallsCons(s, n, block, steps);
    assert (Sizes(s.done) + InProgress(s) + Calls(s, all))[k] == n;
    assert (Sizes(s1.done) + InProgress(s1))[k] == Sizes(s1.done)[k];
    DoneGrows(s, all);
    RunKeeps(s, all);
    NextBytes(s1, k);
  }
}
