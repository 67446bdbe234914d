/** The framing encoder of esp32/main/hdlc_encoder.c, with its two kinds of sink. */
module HdlcEncoder {
  import opened Basics
  import opened Crc
  import opened Hdlc

  lemma {:induction false} StuffConcat(a: seq<bv8>, b: seq<bv8>)
    ensures Stuff(a + b) == Stuff(a) + Stuff(b)
  {
    if a == [] {
      assert a + b == b;
    } else {
      assert (a + b)[1..] == a[1..] + b;
      StuffConcat(a[1..], b);
    }
  }

  lemma StuffSnoc(s: seq<bv8>, i: nat)
    requires i < |s|
    ensures Stuff(s[..i + 1]) == Stuff(s[..i]) + StuffByte(s[i])
  {
    assert s[..i + 1] == s[..i] + [s[i]];
    StuffConcat(s[..i], [s[i]]);
    assert Stuff([s[i]]) == StuffByte(s[i]) + Stuff([s[i]][1..]);
  }

  lemma ResidueSnoc(crc: bv16, s: seq<bv8>, i: nat)
    requires i < |s|
    ensures Residue(crc, s[..i + 1]) == Update(Residue(crc, s[..i]), s[i])
  {
    hide Update;
    assert s[..i + 1] == s[..i] + [s[i]];
    ResidueConcat(crc, s[..i], [s[i]]);
    assert Residue(Residue(crc, s[..i]), [s[i]]) == Residue(Update(Residue(crc, s[..i]), s[i]), [s[i]][1..]);
  }

  /** HDLC_MAX_ENCODE_SIZE: flag, stuffed payload, stuffed check sequence, flag. */
  function MaxEncodeSize(n: nat): nat {
    1 + n * 2 + 2 + 2 + 1
  }

  lemma {:induction false} StuffSize(s: seq<bv8>)
    ensures |s| <= |Stuff(s)| <= 2 * |s|
  {
    if s != [] {
      StuffSize(s[1..]);
    }
  }

  lemma CheckBytesSize(crc: bv16)
    ensures |CheckBytes(crc)| == 2
  {
  }

  lemma FrameSize(payload: seq<bv8>)
    ensures |payload| + 4 <= |Frame(payload)| <= MaxEncodeSize(|payload|)
  {
    hide Residue, CheckBytes;
    StuffSize(Body(payload));
    assert |CheckBytes(Residue(CRC_INIT, payload))| == 2 by { CheckBytesSize(Residue(CRC_INIT, payload)); }
  }

  /** 0x7E appears nowhere in a stuffed body, so in a frame only at its two ends. */
  lemma {:induction false} StuffHasNoFlag(s: seq<bv8>)
    ensures FRAME_FLAG !in Stuff(s)
  {
    if s != [] {
      StuffHasNoFlag(s[1..]);
    }
  }

  lemma FlagsOnlyAtEnds(payload: seq<bv8>, i: nat)
    requires i < |Frame(payload)|
    ensures Frame(payload)[i] == FRAME_FLAG <==> i == 0 || i == |Frame(payload)| - 1
  {
    hide Residue, CheckBytes, Stuff;
    var s := Stuff(Body(payload));
    StuffHasNoFlag(Body(payload));
    assert 0 < i < |Frame(payload)| - 1 ==> Frame(payload)[i] == s[i - 1] && s[i - 1] in s;
  }

  lemma StuffResidueEmpty(crc: bv16)
    ensures Stuff([]) == [] && Residue(crc, []) == crc
  {
  }

  class Encoder {
    var crc: bv16
    const hasFlusher: bool
    /** Everything handed to the writer callback so far, and the calls of the flusher. */
    var sent: seq<bv8>
    var flushes: nat

    constructor (hasFlusher: bool)
      ensures sent == [] && flushes == 0 && this.hasFlusher == hasFlusher
    {
      this.hasFlusher := hasFlusher;
      sent, flushes := [], 0;
    }

    method Begin() returns (r: int)
      modifies this
      ensures crc == CRC_INIT && sent == old(sent) + [FRAME_FLAG] && flushes == old(flushes)
      ensures r == 1
    {
      crc := CRC_INIT;
      sent := sent + [FRAME_FLAG];
      return 1;
    }

    method Write(data: seq<bv8>) returns (c: int)
      modifies this
      ensures crc == Residue(old(crc), data)
      ensures sent == old(sent) + Stuff(data) && flushes == old(flushes)
      ensures c == |Stuff(data)|
    {
      hide Update, Stuff, Residue;
      c := 0;
      StuffResidueEmpty(crc);
      for i := 0 to |data|
        invariant crc == Residue(old(crc), data[..i])
        invariant sent == old(sent) + Stuff(data[..i]) && flushes == old(flushes)
        invariant c == |Stuff(data[..i])|
      {
        StuffSnoc(data, i);
        ResidueSnoc(old(crc), data, i);
        crc := Update(crc, data[i]);
        if data[i] == FRAME_FLAG || data[i] == ESCAPE_FLAG {
          sent := sent + [ESCAPE_FLAG];
          sent := sent + [data[i] ^ ESCAPE_XOR];
          c := c + 2;
        } else {
          sent := sent + [data[i]];
          c := c + 1;
        }
      }
      assert data[..|data|] == data;
    }

    method End() returns (r: int)
      modifies this
      ensures sent == old(sent) + Stuff(CheckBytes(old(crc))) + [FRAME_FLAG]
      ensures flushes == old(flushes) + if hasFlusher then 1 else 0
      ensures r == |sent| - |old(sent)|
      ensures crc == 0
    {
      var c := [LowByte(crc), HighByte(crc)];
      ChecksOut(crc, c[0], c[1]);
      r := Write(c);
      sent := sent + [FRAME_FLAG];
      if hasFlusher {
        flushes := flushes + 1;
      }
      r := r + 1;
    }

    /** A frame written in any number of pieces. */
    method Send(pieces: seq<seq<bv8>>) returns (total: int)
      modifies this
      ensures sent == old(sent) + Frame(Flatten(pieces))
      ensures total == |Frame(Flatten(pieces))|
    {
      hide Stuff, Residue, CheckBytes, Flatten;
      ghost var before := sent;
      total := Begin();
      StuffResidueEmpty(crc);
      FlattenNone(pieces);
      for i := 0 to |pieces|
        invariant crc == Residue(CRC_INIT, Flatten(pieces[..i]))
        invariant sent == before + [FRAME_FLAG] + Stuff(Flatten(pieces[..i]))
        invariant total == |sent| - |before|
      {
        FlattenNext(pieces, i);
        StuffConcat(Flatten(pieces[..i]), pieces[i]);
        ResidueConcat(CRC_INIT, Flatten(pieces[..i]), pieces[i]);
        var c := Write(pieces[i]);
        total := total + c;
      }
      assert pieces[..|pieces|] == pieces;
      var payload := Flatten(pieces);
      StuffConcat(payload, CheckBytes(crc));
      var r := End();
      total := total + r;
    }

    // ---------- The variants that write through a pointer ----------

    method BeginMem(target: array<bv8>, at: nat) returns (next: nat)
      requires at < target.Length
      modifies this, target
      ensures next == at + 1 && crc == CRC_INIT
      ensures target[..next] == old(target[..at]) + [FRAME_FLAG]
      ensures target[next..] == old(target[next..])
      ensures sent == old(sent) && flushes == old(flushes)
    {
      crc := CRC_INIT;
      target[at] := FRAME_FLAG;
      next := at + 1;
    }

    method WriteMemByte(data: bv8, target: array<bv8>, at: nat) returns (next: nat)
      requires at + |StuffByte(data)| <= target.Length
      modifies this, target
      ensures next == at + |StuffByte(data)| && crc == Update(old(crc), data)
      ensures target[..next] == old(target[..at]) + StuffByte(data)
      ensures target[next..] == old(target[next..])
      ensures sent == old(sent) && flushes == old(flushes)
    {
      hide Update;
      crc := Update(crc, data);
      next := at;
      if data == FRAME_FLAG || data == ESCAPE_FLAG {
        target[next] := ESCAPE_FLAG;
        next := next + 1;
        target[next] := data ^ ESCAPE_XOR;
        next := next + 1;
      } else {
        target[next] := data;
        next := next + 1;
      }
    }

    method WriteMem(data: seq<bv8>, target: array<bv8>, at: nat) returns (next: nat)
      requires at + |Stuff(data)| <= target.Length
      modifies this, target
      ensures next == at + |Stuff(data)| && crc == Residue(old(crc), data)
      ensures target[..next] == old(target[..at]) + Stuff(data)
      ensures target[next..] == old(target[next..])
      ensures sent == old(sent) && flushes == old(flushes)
    {
      hide Update, Stuff, Residue, StuffByte;
      next := at;
      StuffResidueEmpty(crc);
      for i := 0 to |data|
        invariant next == at + |Stuff(data[..i])| <= target.Length
        invariant crc == Residue(old(crc), data[..i])
        invariant target[..next] == old(target[..at]) + Stuff(data[..i])
        invariant target[next..] == old(target[..])[next..]
        invariant sent == old(sent) && flushes == old(flushes)
      {
        StuffSnoc(data, i);
        ResidueSnoc(old(crc), data, i);
        StuffConcat(data[..i + 1], data[i + 1..]);
        assert data[..i + 1] + data[i + 1..] == data;
        next := WriteMemByte(data[i], target, next);
      }
      assert data[..|data|] == data;
    }

    method EndMem(target: array<bv8>, at: nat) returns (next: nat)
      requires at + |Stuff(CheckBytes(crc))| + 1 <= target.Length
      modifies this, target
      ensures next == at + |Stuff(CheckBytes(old(crc)))| + 1 && crc == 0
      ensures target[..next] == old(target[..at]) + Stuff(CheckBytes(old(crc))) + [FRAME_FLAG]
      ensures target[next..] == old(target[next..])
      ensures sent == old(sent) && flushes == old(flushes)
    {
      hide Stuff;
      var c := [LowByte(crc), HighByte(crc)];
      ChecksOut(crc, c[0], c[1]);
      next := WriteMem(c, target, at);
      target[next] := FRAME_FLAG;
      next := next + 1;
    }

    /** A whole frame in memory needs no more room than HDLC_MAX_ENCODE_SIZE says. */
    method FrameMem(data: seq<bv8>, target: array<bv8>) returns (next: nat)
      requires target.Length >= MaxEncodeSize(|data|)
      modifies this, target
      ensures next <= MaxEncodeSize(|data|)
      ensures target[..next] == Frame(data) && target[next..] == old(target[next..])
      ensures sent == old(sent)
    {
      hide Stuff, Residue, CheckBytes;
      FrameSize(data);
      StuffConcat(data, CheckBytes(Residue(CRC_INIT, data)));
      next := BeginMem(target, 0);
      next := WriteMem(data, target, next);
      next := EndMem(target, next);
      assert old(target[..0]) == [];
    }
  }
}
