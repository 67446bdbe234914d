/** What the encoder and the receiver achieve over a serial line, from any receiver state. */
module HdlcTheorems {
  import opened Crc
  import opened CrcBursts
  import opened CrcParity
  import opened Hdlc
  import opened HdlcDecoder
  import opened HdlcEncoder

  /** The receiver will take a frame that starts now. */
  predicate Ready(st: State) {
    st.sync ==> st.held == [] && !st.escape && st.crc == CRC_INIT
  }

  /** The state after a flag that opens a frame. */
  const BEGUN := State(true, false, CRC_INIT, [])

  // ---------- Between the flags ----------

  lemma StepStuffed(maxlen: nat, st: State, b: bv8)
    requires st.sync && !st.escape && |st.held| < maxlen
    ensures Run(maxlen, st, StuffByte(b)) == (State(true, false, Update(st.crc, b), st.held + [b]), [])
  {
    hide Update;
    if b == FRAME_FLAG || b == ESCAPE_FLAG {
      var x := b ^ ESCAPE_XOR;
      assert x ^ ESCAPE_XOR == b && x != FRAME_FLAG && x != ESCAPE_FLAG;
      RunConcat(maxlen, st, [ESCAPE_FLAG], [x]);
      RunOne(maxlen, st, ESCAPE_FLAG);
      RunOne(maxlen, st.(escape := true), x);
      assert StuffByte(b) == [ESCAPE_FLAG] + [x];
    } else {
      RunOne(maxlen, st, b);
    }
  }

  /** A body that fits is taken in silently, byte for byte, check included. */
  lemma {:induction false} BodyFits(maxlen: nat, st: State, body: seq<bv8>)
    requires st.sync && !st.escape && |st.held| + |body| <= maxlen
    ensures Run(maxlen, st, Stuff(body)) == (State(true, false, Residue(st.crc, body), st.held + body), [])
    decreases |body|
  {
    hide Update, StuffByte, Step;
    if body == [] {
      assert st.held + [] == st.held;
    } else {
      StepStuffed(maxlen, st, body[0]);
      var st1 := State(true, false, Update(st.crc, body[0]), st.held + [body[0]]);
      BodyFits(maxlen, st1, body[1..]);
      RunConcat(maxlen, st, StuffByte(body[0]), Stuff(body[1..]));
      assert st.held + [body[0]] + body[1..] == st.held + body;
    }
  }

  lemma {:induction false} DeliveriesConcat(a: seq<Event>, b: seq<Event>)
    ensures Deliveries(a + b) == Deliveries(a) + Deliveries(b)
  {
    if a == [] {
      assert a + b == b;
    } else {
      assert (a + b)[1..] == a[1..] + b;
      DeliveriesConcat(a[1..], b);
    }
  }

  lemma StraysCons(w: seq<bv8>)
    requires w != []
    ensures Strays(w) == [Invalid(w[0])] + Strays(w[1..])
  {
  }

  /** Outside a frame nothing but a flag matters: every other byte goes to the handler for stray
      bytes, unchanged and in order, and the state stays. */
  lemma {:induction false} OutOfSync(maxlen: nat, st: State, w: seq<bv8>)
    requires !st.sync && FRAME_FLAG !in w
    ensures Run(maxlen, st, w) == (st, Strays(w))
    decreases |w|
  {
    hide Strays;
    if w == [] {
      assert Strays(w) == [];
    } else {
      OutOfSync(maxlen, st, w[1..]);
      StraysCons(w);
    }
  }

  lemma {:induction false} NothingDelivered(w: seq<bv8>)
    ensures Deliveries(Strays(w)) == [] && Deliveries([Rejected] + Strays(w)) == []
    decreases |w|
  {
    if w != [] {
      NothingDelivered(w[1..]);
      StraysCons(w);
      assert Strays(w)[1..] == Strays(w[1..]);
    }
    assert ([Rejected] + Strays(w))[1..] == Strays(w);
  }

  /** Flag-free bytes never cause a delivery; they end the frame or are held. */
  lemma {:induction false} NoFlags(maxlen: nat, st: State, w: seq<bv8>)
    requires st.sync && FRAME_FLAG !in w
    ensures var (st1, e1) := Run(maxlen, st, w);
            Deliveries(e1) == [] && (st1.sync && st1.held == [] ==> forall b :: b in w ==> b == ESCAPE_FLAG)
    ensures var st1 := Run(maxlen, st, w).0; st1.sync ==> |st1.held| >= |st.held|
    decreases |w|
  {
    hide Update;
    if w != [] {
      var (st1, e1) := Step(maxlen, st, w[0]);
      if st1.sync {
        NoFlags(maxlen, st1, w[1..]);
      } else {
        OutOfSync(maxlen, st1, w[1..]);
        NothingDelivered(w[1..]);
      }
      DeliveriesConcat(e1, Run(maxlen, st1, w[1..]).1);
      assert e1 != [] ==> Deliveries(e1[1..]) == [];
      assert forall b :: b in w ==> b == w[0] || b in w[1..];
    }
  }

  /** Every stuffed body but the empty one holds a byte that is not an escape. */
  lemma StuffSays(body: seq<bv8>)
    requires body != []
    ensures exists b :: b in Stuff(body) && b != ESCAPE_FLAG
  {
    var last := StuffByte(body[0])[|StuffByte(body[0])| - 1];
    assert last != ESCAPE_FLAG && last in Stuff(body);
  }

  lemma ParseEnclosed(maxlen: nat, st: State, w: seq<bv8>)
    ensures var (st1, e1) := Step(maxlen, st, FRAME_FLAG);
            var (st2, e2) := Run(maxlen, st1, w);
            var (st3, e3) := Step(maxlen, st2, FRAME_FLAG);
            Run(maxlen, st, [FRAME_FLAG] + w + [FRAME_FLAG]) == (st3, e1 + e2 + e3)
  {
    hide Step;
    RunConcat(maxlen, st, [FRAME_FLAG] + w, [FRAME_FLAG]);
    RunConcat(maxlen, st, [FRAME_FLAG], w);
    RunOne(maxlen, st, FRAME_FLAG);
    RunOne(maxlen, Run(maxlen, st, [FRAME_FLAG] + w).0, FRAME_FLAG);
  }

  // ---------- One frame ----------

  lemma GoodTail(s: seq<bv8>, a: bv8, b: bv8)
    ensures Residue(CRC_INIT, s + [a, b]) == 0 <==> [a, b] == CheckBytes(Residue(CRC_INIT, s))
  {
    hide Residue, CheckBytes;
    ResidueConcat(CRC_INIT, s, [a, b]);
    ChecksOut(Residue(CRC_INIT, s), a, b);
  }

  lemma SameTail(s: seq<bv8>, a: seq<bv8>, b: seq<bv8>)
    ensures s + a == s + b <==> a == b
  {
    if s + a == s + b {
      assert a == (s + a)[|s|..] == (s + b)[|s|..] == b;
    }
  }

  lemma GoodSum(s: seq<bv8>, a: bv8, b: bv8)
    ensures Residue(CRC_INIT, s + [a, b]) == 0 <==> s + [a, b] == Body(s)
  {
    hide Residue, CheckBytes;
    GoodTail(s, a, b);
    SameTail(s, [a, b], CheckBytes(Residue(CRC_INIT, s)));
  }

  /** The residue of a body is 0 exactly if it ends in the check sequence of the rest. */
  lemma GoodBody(body: seq<bv8>)
    requires |body| >= 2
    ensures Residue(CRC_INIT, body) == 0 <==> body == Body(body[..|body| - 2])
  {
    hide Residue, Body;
    var n := |body| - 2;
    assert body == body[..n] + [body[n], body[n + 1]];
    GoodSum(body[..n], body[n], body[n + 1]);
  }

  /** A non-empty body between flags that fits the buffer is reported exactly once: delivered
      without its last two bytes if those are the check sequence of the rest, else rejected. */
  lemma EnclosedBody(maxlen: nat, st: State, body: seq<bv8>)
    requires Ready(st) && 0 < |body| <= maxlen
    ensures var (st', events) := Run(maxlen, st, Enclose(body));
            && Ready(st') && !st'.sync
            && events == [if |body| >= 2 && body == Body(body[..|body| - 2]) then Delivered(body[..|body| - 2])
                          else Rejected]
  {
    hide Residue, Stuff, Update, CheckBytes;
    ParseEnclosed(maxlen, st, Stuff(body));
    BodyFits(maxlen, BEGUN, body);
    assert [] + body == body;
    if |body| >= 2 {
      GoodBody(body);
    }
  }

  lemma BodyOfPayload(payload: seq<bv8>)
    ensures |Body(payload)| == |payload| + 2 && Body(payload)[..|payload|] == payload
  {
    hide Residue;
  }

  /** Round trip: a ready receiver delivers exactly the payload of a frame that fits. */
  lemma FrameDelivered(maxlen: nat, st: State, payload: seq<bv8>)
    requires Ready(st) && |payload| + 2 <= maxlen
    ensures Run(maxlen, st, Frame(payload)).1 == [Delivered(payload)]
    ensures Ready(Run(maxlen, st, Frame(payload)).0)
  {
    hide Residue, CheckBytes, Enclose, Run, Body;
    BodyOfPayload(payload);
    EnclosedBody(maxlen, st, Body(payload));
  }

  lemma OneTooMany(maxlen: nat, st: State, b: bv8)
    requires st.sync && |st.held| == maxlen
    ensures !Run(maxlen, st, StuffByte(b)).0.sync && Run(maxlen, st, StuffByte(b)).1 == [Rejected]
  {
    if b == FRAME_FLAG || b == ESCAPE_FLAG {
      var x := b ^ ESCAPE_XOR;
      assert x != FRAME_FLAG && x != ESCAPE_FLAG;
      assert StuffByte(b) == [ESCAPE_FLAG] + [x];
      RunConcat(maxlen, st, [ESCAPE_FLAG], [x]);
      RunOne(maxlen, st, ESCAPE_FLAG);
      RunOne(maxlen, st.(escape := true), x);
    } else {
      RunOne(maxlen, st, b);
    }
  }

  lemma StuffThree(body: seq<bv8>, k: nat)
    requires k < |body|
    ensures Stuff(body) == Stuff(body[..k]) + StuffByte(body[k]) + Stuff(body[k + 1..])
  {
    assert body == body[..k + 1] + body[k + 1..];
    StuffConcat(body[..k + 1], body[k + 1..]);
    StuffSnoc(body, k);
  }

  /** A body larger than the buffer ends the frame early, with one rejection; what comes after the
      byte that did not fit is stray. */
  lemma BodyOverflows(maxlen: nat, st: State, body: seq<bv8>)
    requires st.sync && !st.escape && |st.held| <= maxlen < |st.held| + |body|
    ensures !Run(maxlen, st, Stuff(body)).0.sync
    ensures Run(maxlen, st, Stuff(body)).1 == [Rejected] + Strays(Stuff(body[maxlen - |st.held| + 1..]))
  {
    hide Run, Stuff, StuffByte, Strays;
    var k := maxlen - |st.held|;
    StuffThree(body, k);
    BodyFits(maxlen, st, body[..k]);
    var full := Run(maxlen, st, Stuff(body[..k])).0;
    OneTooMany(maxlen, full, body[k]);
    RunConcat(maxlen, st, Stuff(body[..k]), StuffByte(body[k]));
    RunConcat(maxlen, st, Stuff(body[..k]) + StuffByte(body[k]), Stuff(body[k + 1..]));
    StuffHasNoFlag(body[k + 1..]);
    OutOfSync(maxlen, Run(maxlen, full, StuffByte(body[k])).0, Stuff(body[k + 1..]));
    assert [] + [Rejected] == [Rejected];
  }

  /** A frame that does not fit is reported once as bad, its bytes behind the one that did not fit
      are stray, and its closing flag opens the next frame. */
  lemma FrameTooBig(maxlen: nat, st: State, payload: seq<bv8>)
    requires Ready(st) && |payload| + 2 > maxlen
    ensures maxlen < |Body(payload)|
    ensures Run(maxlen, st, Frame(payload)) == (BEGUN, [Rejected] + Strays(Stuff(Body(payload)[maxlen + 1..])))
    ensures Deliveries(Run(maxlen, st, Frame(payload)).1) == []
  {
    hide Residue, CheckBytes, Stuff, Update, Body, Strays, Run;
    var body := Body(payload);
    BodyOfPayload(payload);
    ParseEnclosed(maxlen, st, Stuff(body));
    BodyOverflows(maxlen, BEGUN, body);
    NothingDelivered(Stuff(body[maxlen + 1..]));
    var e := Run(maxlen, BEGUN, Stuff(body)).1;
    assert [] + e + [] == e;
  }

  // ---------- Synchronisation ----------

  /** Self-synchronisation: from any state whatever, one complete frame of any size leaves the
      receiver ready. */
  lemma Resynchronises(maxlen: nat, st: State, payload: seq<bv8>)
    ensures Ready(Run(maxlen, st, Frame(payload)).0)
  {
    hide Residue, CheckBytes, Stuff, Update, Body;
    var body := Body(payload);
    BodyOfPayload(payload);
    var w := Stuff(body);
    ParseEnclosed(maxlen, st, w);
    StuffHasNoFlag(body);
    StuffSays(body);
    var st1 := Step(maxlen, st, FRAME_FLAG).0;
    if st1.sync {
      NoFlags(maxlen, st1, w);
    } else {
      OutOfSync(maxlen, st1, w);
    }
  }

  /** The payloads whose frames fit a receiver's buffer. */
  function ThatFit(maxlen: nat, payloads: seq<seq<bv8>>): seq<seq<bv8>> {
    if payloads == [] then []
    else (if |payloads[0]| + 2 <= maxlen then [payloads[0]] else []) + ThatFit(maxlen, payloads[1..])
  }

  /** A ready receiver delivers, of any frames, exactly those that fit: intact, in order, once. */
  lemma {:induction false} FramesDelivered(maxlen: nat, st: State, payloads: seq<seq<bv8>>)
    requires Ready(st)
    ensures Deliveries(Run(maxlen, st, Frames(payloads)).1) == ThatFit(maxlen, payloads)
    ensures Ready(Run(maxlen, st, Frames(payloads)).0)
    decreases |payloads|
  {
    hide Run, Frame;
    if payloads == [] {
      RunEmpty(maxlen, st);
    } else {
      var p := payloads[0];
      if |p| + 2 <= maxlen {
        FrameDelivered(maxlen, st, p);
        assert Deliveries([Delivered(p)][1..]) == [];
      } else {
        FrameTooBig(maxlen, st, p);
      }
      var (st1, e1) := Run(maxlen, st, Frame(p));
      FramesDelivered(maxlen, st1, payloads[1..]);
      RunConcat(maxlen, st, Frame(p), Frames(payloads[1..]));
      DeliveriesConcat(e1, Run(maxlen, st1, Frames(payloads[1..])).1);
    }
  }

  /** After any noise at most one frame is lost: whatever the receiver was fed before, all
      frames after the first complete one that fit are delivered. */
  lemma LosesAtMostOne(maxlen: nat, st: State, noise: seq<bv8>, first: seq<bv8>, payloads: seq<seq<bv8>>)
    ensures var heard := Run(maxlen, st, noise + Frame(first));
            && Run(maxlen, st, noise + Frame(first) + Frames(payloads)).1
               == heard.1 + Run(maxlen, heard.0, Frames(payloads)).1
            && Deliveries(Run(maxlen, heard.0, Frames(payloads)).1) == ThatFit(maxlen, payloads)
  {
    hide Run, Frame, Frames;
    RunConcat(maxlen, st, noise, Frame(first));
    Resynchronises(maxlen, Run(maxlen, st, noise).0, first);
    RunConcat(maxlen, st, noise + Frame(first), Frames(payloads));
    FramesDelivered(maxlen, Run(maxlen, st, noise + Frame(first)).0, payloads);
  }

  lemma FrameEndsOutOfSync(maxlen: nat, st: State, payload: seq<bv8>)
    requires Ready(st) && |payload| + 2 <= maxlen
    ensures !Run(maxlen, st, Frame(payload)).0.sync
  {
    hide Run, Enclose, Body;
    BodyOfPayload(payload);
    EnclosedBody(maxlen, st, Body(payload));
  }

  /** Section 3.1 of RFC 1662 lets one flag end a frame and begin the next. This receiver does
      not: of two frames that share a flag the second is lost. */
  lemma SharedFlagLosesSecond(maxlen: nat, st: State, a: seq<bv8>, b: seq<bv8>)
    requires Ready(st) && |a| + 2 <= maxlen
    ensures Run(maxlen, st, Frame(a) + Stuff(Body(b)) + [FRAME_FLAG]) == (BEGUN, [Delivered(a)] + Strays(Stuff(Body(b))))
    ensures Deliveries(Run(maxlen, st, Frame(a) + Stuff(Body(b)) + [FRAME_FLAG]).1) == [a]
  {
    hide Run, Frame, Stuff, Body, Strays;
    var (st1, e1) := Run(maxlen, st, Frame(a));
    FrameDelivered(maxlen, st, a);
    FrameEndsOutOfSync(maxlen, st, a);
    StuffHasNoFlag(Body(b));
    OutOfSync(maxlen, st1, Stuff(Body(b)));
    RunConcat(maxlen, st, Frame(a) + Stuff(Body(b)), [FRAME_FLAG]);
    RunConcat(maxlen, st, Frame(a), Stuff(Body(b)));
    RunOne(maxlen, st1, FRAME_FLAG);
    var e2 := Strays(Stuff(Body(b)));
    assert e1 + e2 + [] == e1 + e2;
    NothingDelivered(Stuff(Body(b)));
    DeliveriesConcat(e1, e2);
    assert Deliveries([Delivered(a)][1..]) == [];
  }

  // ---------- Errors ----------

  lemma SameLength(r: seq<bv8>, r': seq<bv8>, i: nat, k: bv8)
    requires DifferByBurst(r, r', i, k)
    ensures |r| == |r'|
  {
  }

  /** A received body that differs from the sent one by a burst of at most 16 bits, within
      two or three consecutive bytes, is reported as a bad frame, never delivered. */
  lemma BurstRejected(maxlen: nat, st: State, payload: seq<bv8>, received: seq<bv8>, i: nat, k: bv8)
    requires Ready(st) && |payload| + 2 <= maxlen
    requires DifferByBurst(Body(payload), received, i, k) && received != Body(payload)
    ensures Run(maxlen, st, Enclose(received)).1 == [Rejected]
  {
    hide Run, Enclose, Body, DifferByBurst, Residue;
    BodyOfPayload(payload);
    assert |received| == |payload| + 2 by { SameLength(Body(payload), received, i, k); }
    EnclosedBody(maxlen, st, received);
    BurstChangesResidue(CRC_INIT, Body(payload), received, i, k);
    GoodBody(Body(payload));
    GoodBody(received);
  }

  lemma BurstOfTwo(e0: bv8, e1: bv8)
    ensures Burst(0, e0, e1, 0)
  {
  }

  /** In particular errors in one byte or in two adjacent bytes. */
  lemma TwoBytesAreABurst(r: seq<bv8>, r': seq<bv8>, i: nat)
    requires |r| == |r'| && i < |r|
    requires forall j :: 0 <= j < |r| && j != i && j != i + 1 ==> r[j] == r'[j]
    ensures DifferByBurst(r, r', i, 0)
  {
    hide Burst;
    if i + 2 < |r| {
      Equal(r[i + 2], r'[i + 2]);
    }
    BurstOfTwo(r[i] ^ r'[i], if i + 1 < |r| then r[i + 1] ^ r'[i + 1] else 0);
  }

  /** Nor is a body ever delivered that differs from the sent one in an odd number of bits. */
  lemma OddErrorsRejected(maxlen: nat, st: State, payload: seq<bv8>, received: seq<bv8>)
    requires Ready(st) && |payload| + 2 <= maxlen
    requires |received| == |Body(payload)| && FlippedBits(Body(payload), received) % 2 == 1
    ensures Run(maxlen, st, Enclose(received)).1 == [Rejected]
  {
    hide Run, Enclose, Body, FlippedBits, Residue;
    BodyOfPayload(payload);
    EnclosedBody(maxlen, st, received);
    OddFlipsChangeResidue(CRC_INIT, Body(payload), received);
    GoodBody(Body(payload));
    GoodBody(received);
  }
}
