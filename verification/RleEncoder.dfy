/** The on-line encoder that runs on the host, esp32/rle.c. */
module RleEncoder {
  import opened Basics
  import opened Rle

  // ---------- What the encoder still has to write ----------

  /** x[base..from] is already written, and no run lies inside x[base..pos]. */
  ghost predicate Inside(x: seq<uint8>, base: nat, from: nat, pos: nat) {
    && base <= from <= pos <= |x|
    && (base < from ==> MAX_READ - MAX_COPY <= pos - from)
    && from - base <= FirstRun(x[base..])
    && forall i: nat :: base <= i && i + MIN_RUN <= pos ==> !RunAt(x, i)
  }

  ghost function Pending(x: seq<uint8>, base: nat, from: nat): seq<uint8>
    requires base <= |x| && base <= from <= base + FirstRun(x[base..])
  {
    SerializeAll(Split(x[from..base + FirstRun(x[base..])])) + SerializeAll(AfterLiteral(x[base..]))
  }

  lemma RunAtSuffix(x: seq<uint8>, base: nat, i: nat)
    requires base <= |x|
    ensures RunAt(x[base..], i) <==> RunAt(x, base + i)
  {
  }

  /** The literal in front of a run, if there is one. */
  ghost function LiteralBlock(s: seq<uint8>): seq<uint8> {
    if s == [] then [] else Le16(|s| - 1) + s
  }

  lemma FirstRunFound(x: seq<uint8>, base: nat, from: nat, pos: nat)
    requires from + MIN_RUN <= pos && Inside(x, base, from, pos - 1)
    requires RunAt(x, pos - MIN_RUN)
    ensures FirstRun(x[base..]) == pos - MIN_RUN - base
  {
    var p := pos - MIN_RUN - base;
    RunAtSuffix(x, base, p);
    forall i: nat | i < p ensures !RunAt(x[base..], i) { RunAtSuffix(x, base, i); }
    FirstRunIs(x[base..], p);
  }

  lemma SplitShort(s: seq<uint8>)
    requires |s| < MAX_COPY
    ensures SerializeAll(Split(s)) == LiteralBlock(s)
  {
    if s != [] {
      SerializeOne(Copy(s));
    }
  }

  lemma LiteralEnds(x: seq<uint8>, base: nat, from: nat, pos: nat)
    requires from + MIN_RUN <= pos <= from + MAX_READ && Inside(x, base, from, pos - 1)
    requires RunAt(x, pos - MIN_RUN)
    ensures FirstRun(x[base..]) == pos - MIN_RUN - base
    ensures from <= pos - MIN_RUN
    ensures Pending(x, base, from)
         == LiteralBlock(x[from..pos - MIN_RUN]) + SerializeAll(AfterLiteral(x[base..]))
  {
    hide AfterLiteral, Tokens, FirstRun, RunAt;
    FirstRunFound(x, base, from, pos);
    SplitShort(x[from..pos - MIN_RUN]);
  }

  lemma RunLengthIs(y: seq<uint8>, v: uint8, count: nat)
    requires count <= |y| && count <= MAX_RUN && forall k :: 0 <= k < count ==> y[k] == v
    requires count == |y| || count == MAX_RUN || y[count] != v
    ensures RunLength(y, v, MAX_RUN) == count
  {
    var n := RunLength(y, v, MAX_RUN);
    hide RunLength;
    if n < count {
      assert false;
    }
  }

  lemma AfterLiteralIs(x: seq<uint8>, p: nat, count: nat)
    requires FirstRun(x) == p && p + count <= |x| && MIN_RUN <= count <= MAX_RUN
    requires forall k :: p <= k < p + count ==> x[k] == x[p]
    requires p + count == |x| || count == MAX_RUN || x[p + count] != x[p]
    ensures AfterLiteral(x) == [Run(count, x[p])] + Tokens(x[p + count..])
  {
    hide AfterLiteral, Tokens, FirstRun, RunLength;
    RunLengthIs(x[p..], x[p], count);
    AfterLiteralRun(x, p, count);
  }

  /** The last four bytes before the newest one all equal c. */
  ghost predicate EqualsTail(buf: seq<uint8>, c: int)
    requires |buf| >= MIN_RUN
  {
    forall k :: |buf| - MIN_RUN <= k < |buf| - 1 ==> buf[k] as int == c
  }

  /** Five equal bytes at the end of the buffer are a run of the input, and conversely. */
  lemma RunInBuffer(x: seq<uint8>, from: nat, pos: nat, buf: seq<uint8>)
    requires from + MIN_RUN <= pos <= |x| && buf == x[from..pos]
    ensures RunAt(x, pos - MIN_RUN)
         <==> EqualsTail(buf, x[pos - 1] as int)
    ensures buf[..|buf| - MIN_RUN] == x[from..pos - MIN_RUN]
  {
    assert forall k :: |buf| - MIN_RUN <= k < |buf| ==> buf[k] == x[from + k];
    assert buf[|buf| - 5] == x[pos - 5] && buf[|buf| - 4] == x[pos - 4];
    assert buf[|buf| - 3] == x[pos - 3] && buf[|buf| - 2] == x[pos - 2];
  }

  lemma RunEnds(x: seq<uint8>, base: nat, start: nat, count: nat)
    requires base <= start && start + count <= |x| && MIN_RUN <= count <= MAX_RUN
    requires FirstRun(x[base..]) == start - base
    requires forall k :: start <= k < start + count ==> x[k] == x[start]
    requires start + count == |x| || count == MAX_RUN || x[start + count] != x[start]
    ensures SerializeAll(AfterLiteral(x[base..]))
         == Le16((MIN_RUN - 1) - count) + [x[start]] + SerializeAll(Tokens(x[start + count..]))
  {
    hide AfterLiteral, Tokens, FirstRun;
    AfterLiteralIs(x[base..], start - base, count);
    assert x[base..][start - base + count..] == x[start + count..];
    SerializeCons(Run(count, x[start]), Tokens(x[start + count..]));
  }

  lemma SerializeTokens(y: seq<uint8>)
    ensures SerializeAll(Tokens(y)) == SerializeAll(Split(y[..FirstRun(y)])) + SerializeAll(AfterLiteral(y))
  {
    SerializeConcat(Split(y[..FirstRun(y)]), AfterLiteral(y));
  }

  lemma NewLiteral(x: seq<uint8>, base: nat, pos: nat)
    requires base <= pos <= base + 1 && pos <= |x|
    ensures Inside(x, base, base, pos)
    ensures SerializeAll(Tokens(x[base..])) == Pending(x, base, base)
  {
    hide Tokens, AfterLiteral, Split, SerializeAll;
    SerializeTokens(x[base..]);
    assert x[base..base + FirstRun(x[base..])] == x[base..][..FirstRun(x[base..])];
  }

  lemma FirstRunAtLeast(x: seq<uint8>, base: nat, p: nat)
    requires base + p <= |x|
    requires forall i: nat :: base <= i < base + p ==> !RunAt(x, i)
    ensures p <= FirstRun(x[base..])
  {
    var q := FirstRun(x[base..]);
    RunAtSuffix(x, base, q);
    if q < p {
      assert false;
    }
  }

  lemma BufferFull(x: seq<uint8>, base: nat, from: nat)
    requires from + MAX_READ <= |x| && Inside(x, base, from, from + MAX_READ)
    ensures Inside(x, base, from + MAX_COPY, from + MAX_READ)
    ensures Pending(x, base, from)
         == Le16(MAX_COPY - 1) + x[from..from + MAX_COPY] + Pending(x, base, from + MAX_COPY)
  {
    hide AfterLiteral, Tokens, FirstRun;
    FirstRunAtLeast(x, base, from + MAX_COPY - base);
    var s := x[from..base + FirstRun(x[base..])];
    assert s[..MAX_COPY] == x[from..from + MAX_COPY];
    assert s[MAX_COPY..] == x[from + MAX_COPY..base + FirstRun(x[base..])];
    SerializeCons(Copy(s[..MAX_COPY]), Split(s[MAX_COPY..]));
  }

  /** The encoding of what is left in the buffer at the end of the file. */
  ghost function LastBlocks(s: seq<uint8>): seq<uint8> {
    if |s| <= MAX_COPY then LiteralBlock(s) else LiteralBlock(s[..MAX_COPY]) + LiteralBlock(s[MAX_COPY..])
  }

  lemma NoRunLeft(x: seq<uint8>, base: nat, from: nat)
    requires Inside(x, base, from, |x|)
    ensures FirstRun(x[base..]) == |x| - base && AfterLiteral(x[base..]) == []
  {
    hide Tokens, Split;
    var y := x[base..];
    forall i: nat | i < |y| ensures !RunAt(y, i) { RunAtSuffix(x, base, i); }
    FirstRunIs(y, |y|);
  }

  lemma SplitLong(s: seq<uint8>)
    requires MAX_COPY <= |s| < MAX_READ
    ensures SerializeAll(Split(s)) == LiteralBlock(s[..MAX_COPY]) + LiteralBlock(s[MAX_COPY..])
  {
    var front, r := s[..MAX_COPY], s[MAX_COPY..];
    assert Split(s) == [Copy(front)] + Split(r);
    assert LiteralBlock(front) == Serialize(Copy(front));
    hide Le16, Serialize, SerializeAll, Split, LiteralBlock;
    SerializeCons(Copy(front), Split(r));
    SplitShort(r);
  }

  lemma SplitLast(s: seq<uint8>)
    requires |s| < MAX_READ
    ensures SerializeAll(Split(s)) == LastBlocks(s)
  {
    if |s| < MAX_COPY {
      SplitShort(s);
    } else {
      SplitLong(s);
      if |s| == MAX_COPY {
        assert s[..MAX_COPY] == s && LiteralBlock(s[MAX_COPY..]) == [];
        assert LiteralBlock(s) + [] == LiteralBlock(s);
      }
      hide LiteralBlock, SerializeAll, Split;
    }
  }

  lemma InputEnds(x: seq<uint8>, base: nat, from: nat)
    requires Inside(x, base, from, |x|) && |x| - from < MAX_READ
    ensures Pending(x, base, from) == LastBlocks(x[from..])
  {
    assert SerializeAll([]) == [];
    hide Tokens, FirstRun, AfterLiteral, Split, LastBlocks, SerializeAll;
    NoRunLeft(x, base, from);
    var s := x[from..];
    SplitLast(s);
    assert x[from..base + FirstRun(x[base..])] == s;
    assert LastBlocks(s) + [] == LastBlocks(s);
  }

  // ---------- One lemma per thing the encoder does ----------

  /** `out` is right so far: followed by the encoding of x[from..], it is the encoding of x. */
  ghost predicate Progress(x: seq<uint8>, base: nat, from: nat, pos: nat, out: seq<uint8>) {
    Inside(x, base, from, pos) && SerializeAll(Tokens(x)) == out + Pending(x, base, from)
  }

  lemma Start(x: seq<uint8>)
    ensures Progress(x, 0, 0, 0, [])
  {
    NewLiteral(x, 0, 0);
    assert x[0..] == x;
  }

  lemma AddByte(x: seq<uint8>, base: nat, from: nat, pos: nat, out: seq<uint8>)
    requires pos < |x| && Progress(x, base, from, pos, out)
    requires from + MIN_RUN <= pos + 1 ==> !RunAt(x, pos + 1 - MIN_RUN)
    ensures Progress(x, base, from, pos + 1, out)
  {
    hide Tokens, SerializeAll, Pending, FirstRun;
    assert Inside(x, base, from, pos + 1);
  }

  lemma RunBytes(x: seq<uint8>, pos: nat)
    requires MIN_RUN <= pos <= |x| && RunAt(x, pos - MIN_RUN)
    ensures forall k :: pos - MIN_RUN <= k < pos ==> x[k] == x[pos - 1]
  {
  }

  lemma TakeRun(x: seq<uint8>, base: nat, from: nat, pos: nat, count: nat, out: seq<uint8>, next: nat)
    requires from + MIN_RUN <= pos <= from + MAX_READ && Progress(x, base, from, pos - 1, out)
    requires RunAt(x, pos - MIN_RUN)
    requires MIN_RUN <= count <= MAX_RUN && pos - MIN_RUN + count <= next <= |x|
    requires forall k :: pos <= k < pos - MIN_RUN + count ==> x[k] == x[pos - 1]
    requires var end := pos - MIN_RUN + count; end == |x| || count == MAX_RUN || x[end] != x[pos - 1]
    requires next <= pos - MIN_RUN + count + 1
    ensures var literal := LiteralBlock(x[from..pos - MIN_RUN]);
            var run := Le16((MIN_RUN - 1) - count) + [x[pos - 1]];
            var end := pos - MIN_RUN + count;
            Progress(x, end, end, next, out + literal + run)
  {
    hide Tokens, SerializeAll, FirstRun, AfterLiteral, Split, Inside, Pending, Le16, RunAt, LiteralBlock;
    var end := pos - MIN_RUN + count;
    var literal := LiteralBlock(x[from..pos - MIN_RUN]);
    var run := Le16((MIN_RUN - 1) - count) + [x[pos - 1]];
    LiteralEnds(x, base, from, pos);
    RunBytes(x, pos);
    RunEnds(x, base, pos - MIN_RUN, count);
    NewLiteral(x, end, next);
    var rest := SerializeAll(Tokens(x[end..]));
    Assoc(out, literal, run + rest);
    Assoc(out + literal, run, rest);
  }

  lemma FlushBuffer(x: seq<uint8>, base: nat, from: nat, buf: seq<uint8>, out: seq<uint8>)
    requires from + MAX_READ <= |x| && Progress(x, base, from, from + MAX_READ, out)
    requires buf == x[from..from + MAX_READ]
    ensures Progress(x, base, from + MAX_COPY, from + MAX_READ, out + (Le16(MAX_COPY - 1) + buf[..MAX_COPY]))
    ensures buf[MAX_COPY..] == x[from + MAX_COPY..from + MAX_READ]
  {
    hide Tokens, SerializeAll, FirstRun, AfterLiteral, Split, Pending;
    BufferFull(x, base, from);
    assert buf[..MAX_COPY] == x[from..from + MAX_COPY];
  }

  lemma Finish(x: seq<uint8>, base: nat, from: nat, out: seq<uint8>)
    requires Progress(x, base, from, |x|, out) && |x| - from < MAX_READ
    ensures SerializeAll(Tokens(x)) == out + LastBlocks(x[from..])
  {
    InputEnds(x, base, from);
  }

  // ---------- The encoder ----------

  /** The next character, or EOF. */
  function Fgetc(input: seq<uint8>, pos: nat): int {
    if pos < |input| then input[pos] as int else EOF
  }

  /** Do the last five buffered characters agree with the current one? */
  method EndsInRun(charBuf: array<uint8>, count: nat, currChar: int) returns (isRun: bool)
    requires MIN_RUN <= count <= charBuf.Length
    ensures isRun <==> EqualsTail(charBuf[..count], currChar)
  {
    var i := 2;
    while i <= MIN_RUN
      invariant 2 <= i <= MIN_RUN + 1
      invariant forall k :: count - i < k < count - 1 ==> charBuf[k] as int == currChar
    {
      if currChar != charBuf[count - i] as int {
        return false;
      }
      i := i + 1;
    }
    return true;
  }

  /** Is a run at the end of the buffer, which holds the input from `from` up to pos? */
  method BufferEndsInRun(input: seq<uint8>, charBuf: array<uint8>, count: nat, currChar: int, ghost pos: nat)
    returns (isRun: bool)
    requires 0 < count <= charBuf.Length && count <= pos <= |input|
    requires charBuf[..count] == input[pos - count..pos] && currChar == input[pos - 1] as int
    ensures isRun <==> count >= MIN_RUN && RunAt(input, pos - MIN_RUN)
  {
    hide RunAt, EqualsTail;
    isRun := false;
    if count >= MIN_RUN {
      isRun := EndsInRun(charBuf, count, currChar);
      RunInBuffer(input, pos - count, pos, charBuf[..count]);
    }
  }

  /** Reads on while the character repeats; nextChar is the one that broke the run, if any. */
  method MeasureRun(input: seq<uint8>, from: nat, currChar: int) returns (count: nat, nextChar: int)
    requires 0 < from <= |input| && currChar == input[from - 1] as int
    ensures MIN_RUN <= count <= MAX_RUN && from - MIN_RUN + count <= |input|
    ensures forall k :: from <= k < from - MIN_RUN + count ==> input[k] == input[from - 1]
    ensures count < MAX_RUN ==> nextChar == Fgetc(input, from - MIN_RUN + count) != currChar
    ensures count == MAX_RUN ==> nextChar == currChar
    ensures EOF <= nextChar < 256
  {
    var pos := from;
    count := MIN_RUN;
    nextChar := Fgetc(input, pos);
    while nextChar == currChar
      invariant from <= pos <= |input|
      invariant count == MIN_RUN + (pos - from) < MAX_RUN
      invariant nextChar == Fgetc(input, pos)
      invariant forall k :: from <= k < pos ==> input[k] == input[from - 1]
      decreases |input| - pos
    {
      count := count + 1;
      pos := pos + 1;
      if MAX_RUN == count {
        break;
      }
      nextChar := Fgetc(input, pos);
    }
  }

  /** The buffer before a run, if anything is in it. */
  method WriteLiteral(charBuf: array<uint8>, n: nat) returns (out: seq<uint8>)
    requires n <= charBuf.Length
    ensures out == LiteralBlock(charBuf[..n])
  {
    out := [];
    if n > 0 {
      out := Le16(n - 1) + charBuf[..n];
    }
  }

  method PutByte(charBuf: array<uint8>, count: nat, c: uint8)
    requires count < charBuf.Length
    modifies charBuf
    ensures charBuf[..count + 1] == old(charBuf[..count]) + [c]
  {
    charBuf[count] := c;
  }

  /** A full copy block; what it leaves behind moves to the front of the buffer. */
  method WriteFull(charBuf: array<uint8>) returns (out: seq<uint8>)
    requires charBuf.Length == MAX_READ
    modifies charBuf
    ensures out == Le16(MAX_COPY - 1) + old(charBuf[..])[..MAX_COPY]
    ensures charBuf[..MAX_READ - MAX_COPY] == old(charBuf[..])[MAX_COPY..]
  {
    out := Le16(MAX_COPY - 1) + charBuf[..MAX_COPY];
    for i := 0 to MAX_READ - MAX_COPY
      invariant charBuf[..i] == old(charBuf[..])[MAX_COPY..][..i]
      invariant charBuf[MAX_COPY..] == old(charBuf[..])[MAX_COPY..]
    {
      assert charBuf[MAX_COPY + i] == charBuf[MAX_COPY..][i];
      charBuf[i] := charBuf[MAX_COPY + i];
    }
  }

  /** The block or two that end the file. */
  method WriteLast(charBuf: array<uint8>, count: nat) returns (out: seq<uint8>)
    requires count < MAX_READ == charBuf.Length
    ensures out == LastBlocks(charBuf[..count])
  {
    out := [];
    if 0 != count {
      if count <= MAX_COPY {
        out := out + Le16(count - 1) + charBuf[..count];
      } else {
        out := out + Le16(MAX_COPY - 1) + charBuf[..MAX_COPY];
        out := out + Le16(count - MAX_COPY - 1) + charBuf[MAX_COPY..count];
        assert charBuf[..count][..MAX_COPY] == charBuf[..MAX_COPY];
      }
    }
  }

  /** The run breaker, if there is one, is the start of the next buffer. */
  method Restart(charBuf: array<uint8>, nextChar: int, runLength: nat) returns (count: nat)
    requires charBuf.Length > 0 && EOF <= nextChar < 256
    modifies charBuf
    ensures count == if nextChar != EOF && runLength != MAX_RUN then 1 else 0
    ensures charBuf[..count] == if count == 1 then [nextChar as uint8] else []
  {
    if nextChar != EOF && runLength != MAX_RUN {
      charBuf[0] := nextChar as uint8;
      count := 1;
    } else {
      count := 0;
    }
  }

  lemma LiteralBytes(x: seq<uint8>, pos: nat, buf: seq<uint8>)
    requires MIN_RUN <= |buf| <= pos <= |x| && buf == x[pos - |buf|..pos]
    ensures buf[..|buf| - MIN_RUN] == x[pos - |buf|..pos - MIN_RUN]
  {
  }

  lemma NextPiece(x: seq<uint8>, pos: nat, c: int)
    requires pos <= |x|
    ensures x[pos..pos] == []
    ensures pos < |x| && c == x[pos] as int ==> x[pos..pos + 1] == [c as uint8]
  {
  }

  /** A run at the end of the buffer: the literal before it and the run go out, and the buffer
      starts again with what broke the run. */
  method EncodeRun(input: seq<uint8>, charBuf: array<uint8>, count: nat, pos: nat,
                   ghost base: nat, ghost written: seq<uint8>)
    returns (out: seq<uint8>, count': nat, pos': nat)
    requires charBuf.Length == MAX_READ && MIN_RUN <= count <= MAX_READ && count <= pos <= |input|
    requires charBuf[..count] == input[pos - count..pos]
    requires Progress(input, base, pos - count, pos - 1, written) && RunAt(input, pos - MIN_RUN)
    modifies charBuf
    ensures count' <= 1 && pos <= pos' <= |input| && charBuf[..count'] == input[pos' - count'..pos']
    ensures Progress(input, pos' - count', pos' - count', pos', written + out)
  {
    hide Progress, Tokens, SerializeAll, Le16, LiteralBlock, RunAt;
    var currChar := charBuf[count - 1];
    assert currChar == charBuf[..count][count - 1] == input[pos - 1];
    var literal := WriteLiteral(charBuf, count - MIN_RUN);
    LiteralBytes(input, pos, charBuf[..count]);
    assert charBuf[..count - MIN_RUN] == charBuf[..count][..count - MIN_RUN];
    var n, nextChar := MeasureRun(input, pos, currChar as int);
    var run := Le16((MIN_RUN - 1) - n) + [currChar];
    out := literal + run;
    ghost var end := pos - MIN_RUN + n;
    NextPiece(input, end, nextChar);
    count' := Restart(charBuf, nextChar, n);
    pos' := pos - MIN_RUN + n + count';
    TakeRun(input, base, pos - count, pos, n, written, pos');
    Assoc(written, literal, run);
  }

  /** rle_compress: one pass over the file with a sliding buffer of unencoded bytes. */
  method Compress(input: seq<uint8>) returns (out: seq<uint8>)
    ensures out == SerializeAll(Tokens(input))
  {
    hide Progress, Tokens, SerializeAll, Le16, LastBlocks, RunAt;
    var charBuf := new uint8[MAX_READ];
    out := [];
    var pos: nat := 0;
    var currChar := Fgetc(input, pos);
    var count: nat := 0;
    // base: where the current literal starts; from: its first byte not yet written
    ghost var base: nat, from: nat := 0, 0;
    Start(input);
    while currChar != EOF
      invariant from <= pos <= |input| && Progress(input, base, from, pos, out)
      invariant currChar == Fgetc(input, pos)
      invariant count == pos - from < MAX_READ
      invariant charBuf[..count] == input[from..pos]
      decreases |input| - pos
    {
      SliceSnoc(input, from, pos);
      PutByte(charBuf, count, currChar as uint8);
      count := count + 1;
      pos := pos + 1;
      var isRun := BufferEndsInRun(input, charBuf, count, currChar, pos);
      if isRun {
        var run;
        ghost var before := out;
        run, count, pos := EncodeRun(input, charBuf, count, pos, base, before);
        out := out + run;
        base, from := pos - count, pos - count;
      } else {
        AddByte(input, base, from, pos - 1, out);
      }

      if MAX_READ == count {
        FlushBuffer(input, base, from, charBuf[..], out);
        var block := WriteFull(charBuf);
        out := out + block;
        from := from + MAX_COPY;
        count := MAX_READ - MAX_COPY;
      }
      currChar := Fgetc(input, pos);
    }

    Finish(input, base, from, out);
    assert charBuf[..count] == input[from..];
    var last := WriteLast(charBuf, count);
    out := out + last;
  }
}
