/**
 Reading a firmware image from a websocket (esp32/main/firmware_ws.c): the handler that puts
 binary frames into a queue of two, and the reader that takes bytes out of it and puts the rest
 of a frame back to the front. Both run concurrently; a run is any interleaving of their steps.
 */
module WsReader {
  import opened Basics

  const QUEUE_SIZE := 2

  type Frame = seq<uint8>

  /** Where the reader is: outside a read, at queue__receive, or at queue__send_to_front. */
  datatype Pc = Idle | Receiving | PushingBack(rest: Frame)

  /** A completed read: the size asked for and the bytes delivered. */
  datatype Read = Read(size: nat, bytes: seq<uint8>)

  datatype State = State(
    valid: bool,
    queue: seq<Frame>,
    pc: Pc,
    size: nat,            // what the read in progress still wants
    block: bool,
    asked: nat,           // what it wanted in the beginning
    buf: seq<uint8>,      // what it has copied
    done: seq<Read>,      // completed reads, oldest first
    enqueued: seq<uint8>  // every byte that has entered the queue
  )

  const INIT := State(true, [], Idle, 0, false, 0, [], [], [])

  datatype Step = Send(frame: Frame) | Invalidate | Call(size: nat, block: bool) | Receive | Timeout | PushBack

  function Return(s: State): State {
    s.(pc := Idle, buf := [], done := s.done + [Read(s.asked, s.buf)])
  }

  /** The end of the do-while loop. */
  function LoopTest(s: State): State {
    if s.size > 0 then s.(pc := Receiving) else Return(s)
  }

  /** The body of the loop on a received frame. */
  function OnFrame(s: State, data: Frame): State {
    var tocopy := if |data| > s.size then s.size else |data|;
    var s1 := s.(buf := s.buf + data[..tocopy]);
    if s.block && tocopy < s.size then LoopTest(s1.(size := s.size - tocopy))
    else if s.size < |data| then s1.(size := s.size - tocopy, pc := PushingBack(data[tocopy..]))
    else LoopTest(s1.(size := s.size - tocopy))
  }

  /** One step; a step that cannot be taken (a full or empty queue, another pc) changes nothing. */
  function Do(s: State, step: Step): State {
    match step
    case Send(frame) =>
      if s.valid && |s.queue| < QUEUE_SIZE then s.(queue := s.queue + [frame], enqueued := s.enqueued + frame) else s
    case Invalidate =>
      s.(valid := false)
    case Call(size, block) =>
      if s.pc == Idle && s.valid then s.(pc := Receiving, size := size, block := block, asked := size, buf := []) else s
    case Receive =>
      if s.pc == Receiving && s.queue != [] then OnFrame(s.(queue := s.queue[1..]), s.queue[0]) else s
    case Timeout =>
      if s.pc == Receiving && s.queue == [] then LoopTest(s) else s
    case PushBack =>
      if s.pc.PushingBack? && |s.queue| < QUEUE_SIZE then Return(s.(queue := [s.pc.rest] + s.queue)) else s
  }

  function Run(s: State, steps: seq<Step>): State
    decreases |steps|
  {
    if steps == [] then s else Run(Do(s, steps[0]), steps[1..])
  }

  // ---------- Conservation ----------

  /** The bytes delivered by completed reads, in order. */
  function Delivered(rs: seq<Read>): seq<uint8> {
    if rs == [] then [] else Delivered(rs[..|rs| - 1]) + rs[|rs| - 1].bytes
  }

  /** What the reader holds in its hands. */
  function Held(s: State): seq<uint8> {
    s.buf + (if s.pc.PushingBack? then s.pc.rest else [])
  }

  ghost predicate Inv(s: State) {
    && |s.queue| <= QUEUE_SIZE
    && Delivered(s.done) + Held(s) + Flatten(s.queue) == s.enqueued
    && (forall r :: r in s.done ==> |r.bytes| == r.size)
    && (s.pc == Idle ==> s.buf == [])
    && (s.pc != Idle ==> |s.buf| + s.size == s.asked)
    && (s.pc.PushingBack? ==> s.size == 0)
  }

  lemma DeliveredSnoc(rs: seq<Read>, r: Read)
    ensures Delivered(rs + [r]) == Delivered(rs) + r.bytes
  {
    assert (rs + [r])[..|rs|] == rs;
  }

  lemma ReturnKeeps(s: State)
    requires |s.queue| <= QUEUE_SIZE && s.pc != Idle && |s.buf| + s.size == s.asked && s.size == 0
    requires Delivered(s.done) + s.buf + Flatten(s.queue) == s.enqueued
    requires forall r :: r in s.done ==> |r.bytes| == r.size
    ensures Inv(Return(s))
  {
    hide Delivered, Flatten;
    DeliveredSnoc(s.done, Read(s.asked, s.buf));
    assert Held(Return(s)) == [];
    var d := Delivered(s.done) + s.buf;
    assert d + [] == d;
  }

  lemma Regroup<T>(d: seq<T>, buf: seq<T>, a: seq<T>, b: seq<T>, f: seq<T>)
    ensures d + (buf + []) + (a + b + f) == d + (buf + a + b) + f
    ensures b == [] ==> buf + a + b == buf + a == buf + a + []
  {
  }

  lemma ReceiveKeeps(s: State)
    requires Inv(s) && s.pc == Receiving && s.queue != []
    ensures Inv(Do(s, Receive))
  {
    hide Delivered, Flatten;
    var data := s.queue[0];
    var n := if |data| > s.size then s.size else |data|;
    var q := s.queue[1..];
    assert s.queue == [data] + q;
    FlattenCons(data, q);
    SplitAt(data, n);
    var d, f := Delivered(s.done), Flatten(q);
    Regroup(d, s.buf, data[..n], data[n..], f);
    var s1 := s.(queue := q, buf := s.buf + data[..n], size := s.size - n);
    assert n == |data| ==> data[n..] == [];
    if s1.size == 0 && n == |data| {
      ReturnKeeps(s1);
    }
  }

  /** Every step keeps the invariant. */
  lemma StepKeeps(s: State, step: Step)
    requires Inv(s)
    ensures Inv(Do(s, step))
  {
    match step
    case Send(frame) =>
      FlattenSnoc(s.queue, frame);
      Assoc(Delivered(s.done) + Held(s), Flatten(s.queue), frame);
    case Receive =>
      if s.pc == Receiving && s.queue != [] {
        ReceiveKeeps(s);
      }
    case Timeout =>
      if s.pc == Receiving && s.queue == [] && s.size == 0 {
        assert s.buf + [] == s.buf;
        ReturnKeeps(s);
      }
    case PushBack =>
      if s.pc.PushingBack? && |s.queue| < QUEUE_SIZE {
        FlattenCons(s.pc.rest, s.queue);
        var d := Delivered(s.done);
        assert d + (s.buf + s.pc.rest) + Flatten(s.queue) == d + s.buf + (s.pc.rest + Flatten(s.queue));
        ReturnKeeps(s.(queue := [s.pc.rest] + s.queue));
      }
    case Invalidate =>
    case Call(_, _) =>
      if s.pc == Idle && s.valid {
        assert Held(s) == Held(Do(s, step));
      }
  }

  /** Conservation over every interleaving: delivered, held and queued bytes, in this order, are
      the bytes that were enqueued; the queue never holds more than two frames. */
  lemma {:induction false} RunKeeps(s: State, steps: seq<Step>)
    requires Inv(s)
    ensures Inv(Run(s, steps))
    decreases |steps|
  {
    hide Do, Inv;
    if steps != [] {
      StepKeeps(s, steps[0]);
      RunKeeps(Do(s, steps[0]), steps[1..]);
    }
  }

  /** The number of bytes the first reads asked for. */
  function Asked(rs: seq<Read>): nat {
    if rs == [] then 0 else Asked(rs[..|rs| - 1]) + rs[|rs| - 1].size
  }

  lemma {:induction false} DeliveredSize(rs: seq<Read>)
    requires forall r :: r in rs ==> |r.bytes| == r.size
    ensures |Delivered(rs)| == Asked(rs)
  {
    if rs != [] {
      DeliveredSize(rs[..|rs| - 1]);
    }
  }

  lemma {:induction false} DeliveredPrefix(done: seq<Read>, i: nat) returns (more: seq<uint8>)
    requires i <= |done|
    ensures Delivered(done) == Delivered(done[..i]) + more
    decreases |done|
  {
    if i == |done| {
      assert done[..i] == done;
      more := [];
    } else {
      var before := done[..|done| - 1];
      more := DeliveredPrefix(before, i);
      assert before[..i] == done[..i];
      Assoc(Delivered(done[..i]), more, done[|done| - 1].bytes);
      more := more + done[|done| - 1].bytes;
    }
  }

  lemma FrontSize(done: seq<Read>, i: nat)
    requires i <= |done| && forall r :: r in done ==> |r.bytes| == r.size
    ensures |Delivered(done[..i])| == Asked(done[..i])
  {
    DeliveredSize(done[..i]);
  }

  lemma Middle<T>(a: seq<T>, b: seq<T>, c: seq<T>, d: seq<T>, whole: seq<T>)
    requires a + b + c + d == whole
    ensures |a| + |b| <= |whole| && whole[|a|..|a| + |b|] == b
  {
  }

  /** Reads whose bytes come to the front of a stream: read number i has the bytes after those of
      the reads before it. */
  lemma ReadAt(done: seq<Read>, i: nat, rest: seq<uint8>, stream: seq<uint8>)
    requires i < |done| && Delivered(done) + rest == stream
    ensures var from := |Delivered(done[..i])|;
            from + |done[i].bytes| <= |stream| && done[i].bytes == stream[from..from + |done[i].bytes|]
  {
    hide Delivered;
    var front, read := done[..i], done[i];
    var more := DeliveredPrefix(done, i + 1);
    assert done[..i + 1] == front + [read];
    DeliveredSnoc(front, read);
    Middle(Delivered(front), read.bytes, more, rest, stream);
  }

  /** In every run, read number i returns exactly as many bytes as it asked for, and they are the
      next ones of the stream: those that follow what the reads before it took. */
  lemma ReadsAreConsecutive(steps: seq<Step>, i: nat)
    requires i < |Run(INIT, steps).done|
    ensures var s := Run(INIT, steps);
            var from := Asked(s.done[..i]);
            from + s.done[i].size <= |s.enqueued|
            && s.done[i].bytes == s.enqueued[from..from + s.done[i].size]
  {
    assert Inv(INIT);
    hide Do, Run, Delivered, Asked, Flatten, Held;
    var s := Run(INIT, steps);
    RunKeeps(INIT, steps);
    Assoc(Delivered(s.done), Held(s), Flatten(s.queue));
    FrontSize(s.done, i);
    assert s.done[i] in s.done;
    ReadAt(s.done, i, Held(s) + Flatten(s.queue), s.enqueued);
  }

  /** A non-blocking read waits for all its bytes just as a blocking one does: the flag makes
      no difference to any step. */
  lemma BlockFlagIsIgnored(s: State, step: Step)
    requires Inv(s) && !step.Call?
    ensures Do(s.(block := true), step) == Do(s, step).(block := true)
  {
  }

  // ---------- Reads that never end ----------

  /** The reader waits to put a rest back, and the producer has filled the queue meanwhile. */
  predicate Deadlocked(s: State) {
    s.pc.PushingBack? && |s.queue| == QUEUE_SIZE
  }

  /** The reader waits for bytes that cannot come any more, as the websocket is closed. */
  predicate Starved(s: State) {
    s.pc == Receiving && !s.valid && |Flatten(s.queue)| < s.size
  }

  lemma BlockedStays(s: State, step: Step)
    requires Deadlocked(s) || Starved(s)
    ensures var s' := Do(s, step); (Deadlocked(s') || Starved(s')) && s'.done == s.done
  {
    if s.queue != [] {
      assert s.queue == [s.queue[0]] + s.queue[1..];
      FlattenCons(s.queue[0], s.queue[1..]);
    }
  }

  lemma {:induction false} BlockedForever(s: State, steps: seq<Step>)
    requires Deadlocked(s) || Starved(s)
    ensures Run(s, steps).done == s.done
    decreases |steps|
  {
    hide Do;
    if steps != [] {
      BlockedStays(s, steps[0]);
      BlockedForever(Do(s, steps[0]), steps[1..]);
    }
  }

  lemma RunOne(s: State, a: Step)
    ensures Run(s, [a]) == Do(s, a)
  {
    hide Do;
    assert [a][1..] == [];
  }

  lemma RunTwo(s: State, a: Step, b: Step)
    ensures Run(s, [a, b]) == Do(Do(s, a), b)
  {
    hide Do;
    assert [a, b][1..] == [b];
    RunOne(Do(s, a), b);
  }

  lemma RunCons(s: State, a: Step, steps: seq<Step>)
    ensures Run(s, [a] + steps) == Run(Do(s, a), steps)
  {
    assert ([a] + steps)[1..] == steps;
  }

  lemma AtMostTwo(s: State)
    requires Inv(s)
    ensures |s.queue| <= QUEUE_SIZE
  {
  }

  /** A frame taken out of the queue ends the read or leaves it able to end. */
  lemma ReceiveProgresses(s: State)
    requires Inv(s) && s.pc == Receiving && s.queue != [] && !Starved(s)
    ensures var s1 := Do(s, Receive);
            && Inv(s1) && |s1.queue| < |s.queue|
            && if s1.pc == Idle then |s1.done| == |s.done| + 1
               else s1.done == s.done && !Deadlocked(s1) && !Starved(s1)
  {
    ReceiveKeeps(s);
    assert s.queue == [s.queue[0]] + s.queue[1..];
    FlattenCons(s.queue[0], s.queue[1..]);
    hide Flatten, Inv;
    assert |s.queue[1..]| < QUEUE_SIZE by { AtMostTwo(s); }
  }

  /** From everywhere else in a read there is a way for it to complete. */
  lemma {:induction false} CanComplete(s: State) returns (steps: seq<Step>)
    requires Inv(s) && s.pc != Idle && !Deadlocked(s) && !Starved(s)
    ensures |Run(s, steps).done| == |s.done| + 1
    decreases |s.queue|
  {
    if s.pc.PushingBack? {
      steps := [PushBack];
      RunOne(s, PushBack);
    } else if s.queue == [] {
      if s.size == 0 {
        steps := [Timeout];
        RunOne(s, Timeout);
      } else {
        var frame := Repeat(0, s.size);
        steps := [Send(frame), Receive];
        RunTwo(s, Send(frame), Receive);
      }
    } else {
      ReceiveProgresses(s);
      hide Do, Starved, Deadlocked, Inv;
      var s1 := Do(s, Receive);
      if s1.pc == Idle {
        steps := [Receive];
        RunOne(s, Receive);
      } else {
        var more := CanComplete(s1);
        steps := [Receive] + more;
        RunCons(s, Receive, more);
      }
    }
  }

  /** Exactly when a read in progress can still complete. */
  lemma CompletesUnlessBlocked(s: State)
    requires Inv(s) && s.pc != Idle
    ensures (exists steps :: |Run(s, steps).done| > |s.done|) <==> !Deadlocked(s) && !Starved(s)
  {
    if Deadlocked(s) || Starved(s) {
      forall steps ensures |Run(s, steps).done| == |s.done| {
        BlockedForever(s, steps);
      }
    } else {
      var steps := CanComplete(s);
    }
  }

  lemma DeadlockStep(s: State, f: Frame)
    requires |f| > 1 && s.queue == [f, f] && s.pc == Receiving && s.size == 1 && s.valid
    ensures Deadlocked(Do(Do(s, Receive), Send(f)))
  {
    var s1 := Do(s, Receive);
    assert s1.pc == PushingBack(f[1..]) && s1.queue == [f];
  }

  /** The deadlock is real: two frames arrive, a read wants less than the first, and a third
      frame arrives before the rest of the first is put back. */
  lemma DeadlockIsReachable(f: Frame)
    requires |f| > 1
    ensures exists steps :: Deadlocked(Run(INIT, steps))
  {
    var s1 := Do(INIT, Send(f));
    var s2 := Do(s1, Send(f));
    var s3 := Do(s2, Call(1, true));
    assert s3.queue == [f, f] && s3.pc == Receiving && s3.size == 1 && s3.valid;
    DeadlockStep(s3, f);
    hide Do, Run, Deadlocked;
    RunTwo(s3, Receive, Send(f));
    RunCons(s2, Call(1, true), [Receive, Send(f)]);
    RunCons(s1, Send(f), [Call(1, true)] + [Receive, Send(f)]);
    RunCons(INIT, Send(f), [Send(f)] + ([Call(1, true)] + [Receive, Send(f)]));
  }
}
