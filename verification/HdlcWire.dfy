/** The receiver on bytes that no encoder need have sent: what it makes of any frame at all. */
module HdlcWire {
  import opened Basics
  import opened Crc
  import opened Hdlc
  import opened HdlcDecoder
  import opened HdlcTheorems

  function Meant(escaped: bool, x: bv8): bv8 {
    if escaped then x ^ 0x20 else x
  }

  /** What bytes without a flag stand for (section 4.2 of RFC 1662): every 0x7D is dropped and flips
      a bit of the next byte that is not a 0x7D itself. `escaped` says that one came before. */
  function Unstuff(escaped: bool, w: seq<bv8>): seq<bv8>
    decreases |w|
  {
    if w == [] then []
    else if w[0] == 0x7D then Unstuff(true, w[1..])
    else [Meant(escaped, w[0])] + Unstuff(false, w[1..])
  }

  function EndsEscaped(escaped: bool, w: seq<bv8>): bool
    decreases |w|
  {
    if w == [] then escaped else EndsEscaped(w[0] == 0x7D, w[1..])
  }

  lemma OnePlain(maxlen: nat, st: State, x: bv8)
    requires st.sync && x != FRAME_FLAG && x != 0x7D && |st.held| < maxlen
    ensures var d := Meant(st.escape, x);
            Step(maxlen, st, x) == (State(true, false, Update(st.crc, d), st.held + [d]), [])
  {
    hide Update;
  }

  lemma ResidueCons(crc: bv16, d: bv8, u: seq<bv8>)
    ensures Residue(crc, [d] + u) == Residue(Update(crc, d), u)
  {
    hide Update;
    assert ([d] + u)[1..] == u;
  }

  lemma SilentStep(maxlen: nat, st: State, w: seq<bv8>, st1: State)
    requires w != [] && Step(maxlen, st, w[0]) == (st1, [])
    ensures Run(maxlen, st, w) == Run(maxlen, st1, w[1..])
  {
    hide Step;
    assert [] + Run(maxlen, st1, w[1..]).1 == Run(maxlen, st1, w[1..]).1;
  }

  lemma UnstuffCons(escaped: bool, w: seq<bv8>)
    requires w != [] && w[0] != 0x7D
    ensures Unstuff(escaped, w) == [Meant(escaped, w[0])] + Unstuff(false, w[1..])
    ensures EndsEscaped(escaped, w) == EndsEscaped(false, w[1..])
  {
    hide Meant;
  }

  lemma HeldNothing(st: State)
    ensures Residue(st.crc, []) == st.crc && st.held + [] == st.held
  {
  }

  /** Bytes that fit are held as they are meant, and nothing is reported. */
  lemma {:induction false} Held(maxlen: nat, st: State, w: seq<bv8>)
    requires st.sync && FRAME_FLAG !in w && |st.held| + |Unstuff(st.escape, w)| <= maxlen
    ensures var u := Unstuff(st.escape, w);
            Run(maxlen, st, w) == (State(true, EndsEscaped(st.escape, w), Residue(st.crc, u), st.held + u), [])
    decreases |w|
  {
    hide Update, Residue, Run, Meant;
    if w == [] {
      HeldNothing(st);
      RunEmpty(maxlen, st);
    } else if w[0] == 0x7D {
      SilentStep(maxlen, st, w, st.(escape := true));
      Held(maxlen, st.(escape := true), w[1..]);
    } else {
      UnstuffCons(st.escape, w);
      OnePlain(maxlen, st, w[0]);
      hide Step, Unstuff, EndsEscaped;
      var st1 := Step(maxlen, st, w[0]).0;
      SilentStep(maxlen, st, w, st1);
      Held(maxlen, st1, w[1..]);
      ResidueCons(st.crc, Meant(st.escape, w[0]), Unstuff(false, w[1..]));
      Assoc(st.held, [Meant(st.escape, w[0])], Unstuff(false, w[1..]));
    }
  }

  /** One byte too many ends the frame with a rejection; those behind it are stray. */
  lemma TooMuch(maxlen: nat, st: State, a: seq<bv8>, x: bv8, b: seq<bv8>)
    requires st.sync && FRAME_FLAG !in a + [x] + b && x != 0x7D
    requires |st.held| + |Unstuff(st.escape, a)| == maxlen
    ensures !Run(maxlen, st, a + [x] + b).0.sync
    ensures Run(maxlen, st, a + [x] + b).1 == [Rejected] + Strays(b)
  {
    hide Run, Update, Strays, Unstuff, Residue;
    assert forall y :: y in a || y in b || y == x ==> y in a + [x] + b;
    Held(maxlen, st, a);
    var full := Run(maxlen, st, a).0;
    RunOne(maxlen, full, x);
    var lost := Step(maxlen, full, x).0;
    OutOfSync(maxlen, lost, b);
    RunConcat(maxlen, st, a + [x], b);
    RunConcat(maxlen, st, a, [x]);
    assert [] + [Rejected] == [Rejected];
  }

  /** Where bytes that stand for more than n stop fitting. */
  lemma {:induction false} FirstTooMany(escaped: bool, w: seq<bv8>, n: nat) returns (k: nat)
    requires |Unstuff(escaped, w)| > n
    ensures k < |w| && w[k] != 0x7D && |Unstuff(escaped, w[..k])| == n
    decreases |w|
  {
    if w[0] != 0x7D && n == 0 {
      k := 0;
    } else {
      var k1 := FirstTooMany(w[0] == 0x7D, w[1..], if w[0] == 0x7D then n else n - 1);
      k := k1 + 1;
      assert w[..k][1..] == w[1..][..k1];
    }
  }

  /** What any bytes between two flags make a ready receiver report: nothing if they stand for
      nothing; exactly one frame, good or bad, if what they stand for fits; else one bad frame,
      and the bytes behind the first that did not fit, one by one. */
  lemma AnyFrame(maxlen: nat, st: State, w: seq<bv8>)
    requires Ready(st) && FRAME_FLAG !in w
    ensures var u, e := Unstuff(false, w), Run(maxlen, st, [FRAME_FLAG] + w + [FRAME_FLAG]).1;
            if u == [] then e == []
            else if |u| <= maxlen then
              e == [if |u| >= 2 && u == Body(u[..|u| - 2]) then Delivered(u[..|u| - 2]) else Rejected]
            else
              exists k :: 0 <= k < |w| && w[k] != 0x7D && |Unstuff(false, w[..k])| == maxlen
                          && e == [Rejected] + Strays(w[k + 1..])
  {
    hide Residue, Update, CheckBytes, Body, Strays, Unstuff, EndsEscaped;
    var u := Unstuff(false, w);
    ParseEnclosed(maxlen, st, w);
    if |u| <= maxlen {
      Held(maxlen, BEGUN, w);
      assert [] + u == u;
      if |u| >= 2 {
        GoodBody(u);
      }
    } else {
      var k := FirstTooMany(false, w, maxlen);
      assert w == w[..k] + [w[k]] + w[k + 1..];
      TooMuch(maxlen, BEGUN, w[..k], w[k], w[k + 1..]);
      var e := [Rejected] + Strays(w[k + 1..]);
      assert [] + e + [] == e;
    }
  }

  // ---------- In numbers ----------

  /** The escapes of section 4.2 of RFC 1662 and the flag, as they are on the line. */
  lemma EscapesInNumbers(s: seq<bv8>)
    ensures Stuff([0x7E] + s) == [0x7D, 0x5E] + Stuff(s)
    ensures Stuff([0x7D] + s) == [0x7D, 0x5D] + Stuff(s)
    ensures forall b: bv8 :: b != 0x7D && b != 0x7E ==> Stuff([b] + s) == [b] + Stuff(s)
    ensures Frame(s)[0] == 0x7E == Frame(s)[|Frame(s)| - 1]
  {
    hide Residue, CheckBytes;
    forall b: bv8 ensures Stuff([b] + s) == StuffByte(b) + Stuff(s) {
      assert ([b] + s)[1..] == s;
    }
  }

  /** The check of the nine digits "123456789", the usual test of a CRC. */
  lemma CheckInNumbers()
    ensures Residue(0xFFFF, [0x31, 0x32, 0x33, 0x34, 0x35, 0x36, 0x37, 0x38, 0x39]) == 0x6F91
    ensures CheckBytes(0x6F91) == [0x91, 0x6F] && CRC_INIT == 0xFFFF
  {
  }

  /** The frame without payload. */
  lemma EmptyFrame()
    ensures Frame([]) == [0x7E, 0xFF, 0xFF, 0x7E]
  {
    assert Body([]) == [0xFF, 0xFF];
    hide Body;
    assert Stuff([0xFF, 0xFF]) == [0xFF, 0xFF] by {
      assert [0xFF, 0xFF] == [0xFF] + [0xFF] && [0xFF] == [0xFF] + [] && Stuff([]) == [];
      EscapesInNumbers([0xFF]);
      EscapesInNumbers([]);
    }
  }
}
