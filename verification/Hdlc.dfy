/**
 HDLC-like framing of the console link: byte stuffing as in section 4.2 of RFC 1662 around a
 payload and its check sequence, and the receiver's state machine as a function.
 */
module Hdlc {
  import opened Crc

  const FRAME_FLAG: bv8 := 0x7E
  const ESCAPE_FLAG: bv8 := 0x7D
  const ESCAPE_XOR: bv8 := 0x20

  // ---------- Frames ----------

  function StuffByte(b: bv8): seq<bv8> {
    if b == FRAME_FLAG || b == ESCAPE_FLAG then [ESCAPE_FLAG, b ^ ESCAPE_XOR] else [b]
  }

  function Stuff(s: seq<bv8>): seq<bv8> {
    if s == [] then [] else StuffByte(s[0]) + Stuff(s[1..])
  }

  /** What a frame carries between its flags, before stuffing. */
  function Body(payload: seq<bv8>): seq<bv8> {
    payload + CheckBytes(Residue(CRC_INIT, payload))
  }

  function Enclose(body: seq<bv8>): seq<bv8> {
    [FRAME_FLAG] + Stuff(body) + [FRAME_FLAG]
  }

  function Frame(payload: seq<bv8>): seq<bv8> {
    Enclose(Body(payload))
  }

  /** The frames of several payloads, back to back. */
  function Frames(payloads: seq<seq<bv8>>): seq<bv8> {
    if payloads == [] then [] else Frame(payloads[0]) + Frames(payloads[1..])
  }

  // ---------- The receiver ----------

  /** A call of one of the two handlers: a good frame, a bad one (a NULL frame), or a byte
      outside any frame. */
  datatype Event = Delivered(payload: seq<bv8>) | Rejected | Invalid(data: bv8)

  datatype State = State(sync: bool, escape: bool, crc: bv16, held: seq<bv8>)

  function ProcessFrame(st: State): Event {
    if st.sync && |st.held| >= 2 && st.crc == 0 then Delivered(st.held[..|st.held| - 2]) else Rejected
  }

  /** hdlc_decoder__append: the new state and the handler calls. */
  function Step(maxlen: nat, st: State, data: bv8): (State, seq<Event>) {
    if st.sync then
      if data == FRAME_FLAG then
        if |st.held| > 0 then (st.(sync := false), [ProcessFrame(st)]) else (st, [])
      else if data == ESCAPE_FLAG then (st.(escape := true), [])
      else if |st.held| < maxlen then
        var d := if st.escape then data ^ ESCAPE_XOR else data;
        (State(true, false, Update(st.crc, d), st.held + [d]), [])
      else
        (st.(sync := false), [ProcessFrame(st.(sync := false))])
    else if data == FRAME_FLAG then (State(true, false, CRC_INIT, []), [])
    else (st, [Invalid(data)])
  }

  function Run(maxlen: nat, st: State, wire: seq<bv8>): (State, seq<Event>)
    decreases |wire|
  {
    if wire == [] then (st, [])
    else
      var (st1, e1) := Step(maxlen, st, wire[0]);
      var (st2, e2) := Run(maxlen, st1, wire[1..]);
      (st2, e1 + e2)
  }

  /** The payloads among the events. */
  function Deliveries(events: seq<Event>): seq<seq<bv8>> {
    if events == [] then []
    else (if events[0].Delivered? then [events[0].payload] else []) + Deliveries(events[1..])
  }

  /** Every byte handed to the handler for stray bytes, as it came. */
  function Strays(w: seq<bv8>): (e: seq<Event>)
    ensures |e| == |w| && forall i :: 0 <= i < |w| ==> e[i] == Invalid(w[i])
  {
    seq(|w|, i requires 0 <= i < |w| => Invalid(w[i]))
  }
}
