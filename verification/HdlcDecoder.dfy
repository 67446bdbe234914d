/** The framing receiver of esp32/main/hdlc_decoder.c. */
module HdlcDecoder {
  import opened Crc
  import opened Hdlc

  lemma RunEmpty(maxlen: nat, st: State)
    ensures Run(maxlen, st, []) == (st, [])
  {
  }

  lemma {:induction false} RunConcat(maxlen: nat, st: State, a: seq<bv8>, b: seq<bv8>)
    ensures Run(maxlen, st, a + b).0 == Run(maxlen, Run(maxlen, st, a).0, b).0
    ensures Run(maxlen, st, a + b).1 == Run(maxlen, st, a).1 + Run(maxlen, Run(maxlen, st, a).0, b).1
    decreases |a|
  {
    hide Step;
    if a == [] {
      assert a + b == b;
    } else {
      assert (a + b)[1..] == a[1..] + b;
      RunConcat(maxlen, Step(maxlen, st, a[0]).0, a[1..], b);
    }
  }

  lemma RunOne(maxlen: nat, st: State, data: bv8)
    ensures Run(maxlen, st, [data]) == Step(maxlen, st, data)
  {
    hide Step;
    var (st1, e1) := Step(maxlen, st, data);
    assert Run(maxlen, st1, [data][1..]) == (st1, []);
    assert e1 + [] == e1;
  }

  lemma RunSnoc(maxlen: nat, st: State, s: seq<bv8>, i: nat)
    requires i < |s|
    ensures var (st1, e1) := Run(maxlen, st, s[..i]);
            var (st2, e2) := Step(maxlen, st1, s[i]);
            Run(maxlen, st, s[..i + 1]) == (st2, e1 + e2)
  {
    hide Step;
    assert s[..i + 1] == s[..i] + [s[i]];
    RunConcat(maxlen, st, s[..i], [s[i]]);
    RunOne(maxlen, Run(maxlen, st, s[..i]).0, s[i]);
  }

  class Decoder {
    const buffer: array<bv8>
    const buflen: nat
    var clen: nat
    var crc: bv16
    var escape: bool
    var sync: bool
    /** The handler calls made so far. */
    var events: seq<Event>

    ghost predicate Valid()
      reads this
    {
      clen <= buflen <= buffer.Length
    }

    ghost function Abs(): State
      requires Valid()
      reads this, buffer
    {
      State(sync, escape, crc, buffer[..clen])
    }

    /** hdlc_decoder__init; it leaves the check register as it finds it. */
    constructor (buffer: array<bv8>, maxlen: nat)
      requires maxlen <= buffer.Length
      ensures Valid() && this.buffer == buffer && buflen == maxlen
      ensures !sync && !escape && clen == 0 && events == []
    {
      this.buffer, buflen := buffer, maxlen;
      escape, sync, clen, events := false, false, 0, [];
    }

    method ProcessFrame()
      requires Valid()
      modifies this`events
      ensures events == old(events) + [Hdlc.ProcessFrame(Abs())]
    {
      if sync && clen >= 2 && crc == 0 {
        assert buffer[..clen][..clen - 2] == buffer[..clen - 2];
        events := events + [Delivered(buffer[..clen - 2])];
      } else {
        events := events + [Rejected];
      }
    }

    method Append(data: bv8)
      requires Valid()
      modifies this, buffer
      ensures Valid()
      ensures (Abs(), events) == (Step(buflen, old(Abs()), data).0, old(events) + Step(buflen, old(Abs()), data).1)
    {
      hide Update;
      assert events + [] == events;
      if sync {
        if data == FRAME_FLAG {
          if clen > 0 {
            ProcessFrame();
            sync := false;
          }
        } else if data == ESCAPE_FLAG {
          escape := true;
        } else if clen < buflen {
          var d := data;
          if escape {
            escape := false;
            d := d ^ ESCAPE_XOR;
          }
          crc := Update(crc, d);
          buffer[clen] := d;
          clen := clen + 1;
          assert buffer[..clen] == old(buffer[..clen]) + [d];
        } else {
          sync := false;
          ProcessFrame();
        }
      } else {
        if data == FRAME_FLAG {
          clen, crc, sync, escape := 0, CRC_INIT, true, false;
        } else {
          events := events + [Invalid(data)];
        }
      }
    }

    method AppendBuffer(data: seq<bv8>)
      requires Valid()
      modifies this, buffer
      ensures Valid()
      ensures Abs() == Run(buflen, old(Abs()), data).0
      ensures events == old(events) + Run(buflen, old(Abs()), data).1
    {
      hide Step;
      RunEmpty(buflen, Abs());
      for i := 0 to |data|
        invariant Valid()
        invariant Abs() == Run(buflen, old(Abs()), data[..i]).0
        invariant events == old(events) + Run(buflen, old(Abs()), data[..i]).1
      {
        RunSnoc(buflen, old(Abs()), data, i);
        Append(data[i]);
      }
      assert data[..|data|] == data;
    }
  }
}
