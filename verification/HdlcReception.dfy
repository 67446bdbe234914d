/** Exactly when a receiver takes a frame, and the two ends of a line together. */
module HdlcReception {
  import opened Basics
  import opened Crc
  import opened CrcBursts
  import opened Hdlc
  import opened HdlcDecoder
  import opened HdlcEncoder
  import opened HdlcTheorems

  // ---------- Exactly when a frame gets through ----------

  /** What every state of a receiver satisfies: a frame that has only begun has a fresh check. */
  predicate Reachable(st: State) {
    st.sync && st.held == [] ==> st.crc == CRC_INIT
  }

  lemma {:induction false} StaysReachable(maxlen: nat, st: State, wire: seq<bv8>)
    requires Reachable(st)
    ensures Reachable(Run(maxlen, st, wire).0)
    decreases |wire|
  {
    hide Update;
    if wire != [] {
      StaysReachable(maxlen, Step(maxlen, st, wire[0]).0, wire[1..]);
    }
  }

  predicate NeedsEscape(b: bv8) {
    b == FRAME_FLAG || b == ESCAPE_FLAG
  }

  /** The receiver is between frames; or a frame has begun, and if an escape came after its flag
      the first byte of the body is sent with an escape anyway. */
  predicate Receptive(st: State, body: seq<bv8>)
    requires body != []
  {
    st.sync ==> st.held == [] && (st.escape ==> NeedsEscape(body[0]))
  }

  /** After a stray escape a byte that is sent plain arrives with a bit flipped. */
  lemma StepAfterEscape(maxlen: nat, st: State, b: bv8)
    requires st.sync && st.escape && |st.held| < maxlen
    ensures var d := if NeedsEscape(b) then b else b ^ ESCAPE_XOR;
            Run(maxlen, st, StuffByte(b)) == (State(true, false, Update(st.crc, d), st.held + [d]), [])
  {
    hide Update;
    if NeedsEscape(b) {
      var x := b ^ ESCAPE_XOR;
      assert x ^ ESCAPE_XOR == b && x != FRAME_FLAG && x != ESCAPE_FLAG;
      RunConcat(maxlen, st, [ESCAPE_FLAG], [x]);
      RunOne(maxlen, st, ESCAPE_FLAG);
      assert st.(escape := true) == st;
      RunOne(maxlen, st, x);
      assert StuffByte(b) == [ESCAPE_FLAG] + [x];
    } else {
      RunOne(maxlen, st, b);
    }
  }

  function SeenAfterEscape(body: seq<bv8>): seq<bv8>
    requires body != []
  {
    if NeedsEscape(body[0]) then body else body[0 := body[0] ^ ESCAPE_XOR]
  }

  lemma BodyAfterEscape(maxlen: nat, st: State, body: seq<bv8>)
    requires st.sync && st.escape && st.held == [] && 0 < |body| <= maxlen
    ensures var seen := SeenAfterEscape(body);
            Run(maxlen, st, Stuff(body)) == (State(true, false, Residue(st.crc, seen), seen), [])
  {
    hide Update, StuffByte, Step, NeedsEscape;
    var b, rest, seen := body[0], body[1..], SeenAfterEscape(body);
    var d := seen[0];
    StepAfterEscape(maxlen, st, b);
    var st1 := State(true, false, Update(st.crc, d), [d]);
    assert st.held + [d] == [d];
    BodyFits(maxlen, st1, rest);
    RunConcat(maxlen, st, StuffByte(b), Stuff(rest));
    assert seen == [d] + rest && seen[1..] == rest;
  }

  lemma FlipDiffers(b: bv8)
    ensures b ^ ESCAPE_XOR != b
  {
  }

  /** One flipped bit in the first byte is noticed. */
  lemma SeenIsBad(payload: seq<bv8>)
    requires !NeedsEscape(Body(payload)[0])
    ensures Residue(CRC_INIT, SeenAfterEscape(Body(payload))) != 0
  {
    hide Residue, Body, NeedsEscape, DifferByBurst;
    BodyOfPayload(payload);
    var body, seen := Body(payload), SeenAfterEscape(Body(payload));
    TwoBytesAreABurst(body, seen, 0);
    FlipDiffers(body[0]);
    BurstChangesResidue(CRC_INIT, body, seen, 0, 0);
    GoodBody(body);
  }

  /** The frame's closing flag, with n bytes held and the check in a given state. */
  lemma CloseFrame(maxlen: nat, st: State)
    requires st.sync && |st.held| >= 2
    ensures Step(maxlen, st, FRAME_FLAG).1
         == [if st.crc == 0 then Delivered(st.held[..|st.held| - 2]) else Rejected]
  {
  }

  /** A frame that starts inside another one is lost: its opening flag ends the other one, which is
      reported as it stands, its bytes are stray, and its closing flag opens the next frame. */
  lemma LostInsideAnother(maxlen: nat, st: State, payload: seq<bv8>)
    requires st.sync && st.held != []
    ensures Run(maxlen, st, Frame(payload)) == (BEGUN, [ProcessFrame(st)] + Strays(Stuff(Body(payload))))
    ensures Strays(Stuff(Body(payload))) != []
  {
    hide Residue, CheckBytes, Stuff, Update, Body, Strays;
    var w := Stuff(Body(payload));
    ParseEnclosed(maxlen, st, w);
    StuffHasNoFlag(Body(payload));
    OutOfSync(maxlen, st.(sync := false), w);
    StuffSize(Body(payload));
    BodyOfPayload(payload);
    var e := [ProcessFrame(st)] + Strays(w);
    assert e + [] == e;
  }

  lemma AfterStrayEscape(maxlen: nat, st: State, payload: seq<bv8>)
    requires Reachable(st) && st.sync && st.escape && st.held == [] && |payload| + 2 <= maxlen
    ensures Run(maxlen, st, Frame(payload)).1
         == [if NeedsEscape(Body(payload)[0]) then Delivered(payload) else Rejected]
  {
    hide Residue, Run, Body, NeedsEscape, Stuff;
    BodyOfPayload(payload);
    var body := Body(payload);
    var seen := SeenAfterEscape(body);
    ParseEnclosed(maxlen, st, Stuff(body));
    BodyAfterEscape(maxlen, st, body);
    var held := State(true, false, Residue(CRC_INIT, seen), seen);
    CloseFrame(maxlen, held);
    hide Step;
    if NeedsEscape(body[0]) {
      GoodBody(body);
    } else {
      SeenIsBad(payload);
    }
    assert [] + [] + Step(maxlen, held, FRAME_FLAG).1 == Step(maxlen, held, FRAME_FLAG).1;
  }

  /** The exact condition: from any state a receiver can be in, a frame that fits is received (and
      nothing else is reported meanwhile) if and only if the state is receptive. */
  lemma ReceivedIffReceptive(maxlen: nat, st: State, payload: seq<bv8>)
    requires Reachable(st) && |payload| + 2 <= maxlen
    ensures |Body(payload)| == |payload| + 2
    ensures Run(maxlen, st, Frame(payload)).1 == [Delivered(payload)] <==> Receptive(st, Body(payload))
  {
    hide Residue, Run, Frame, Body, NeedsEscape;
    var body := Body(payload);
    BodyOfPayload(payload);
    if st.sync && st.held != [] {
      LostInsideAnother(maxlen, st, payload);
    } else if st.sync && st.escape {
      AfterStrayEscape(maxlen, st, payload);
    } else {
      FrameDelivered(maxlen, st, payload);
    }
  }

  // ---------- The two ends of a line ----------

  /** What an encoder sends in any number of pieces, a ready receiver delivers as one payload. */
  method Link(encoder: Encoder, decoder: Decoder, pieces: seq<seq<bv8>>)
    requires encoder.sent == [] && decoder.Valid() && Ready(decoder.Abs())
    requires |Flatten(pieces)| + 2 <= decoder.buflen
    modifies encoder, decoder, decoder.buffer
    ensures decoder.Valid() && Ready(decoder.Abs())
    ensures decoder.events == old(decoder.events) + [Delivered(Flatten(pieces))]
  {
    hide Run, Frame, Flatten;
    FrameDelivered(decoder.buflen, decoder.Abs(), Flatten(pieces));
    var n := encoder.Send(pieces);
    assert [] + Frame(Flatten(pieces)) == Frame(Flatten(pieces));
    decoder.AppendBuffer(encoder.sent);
  }
}
