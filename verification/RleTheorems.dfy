/** What the encoder and the decoder achieve together, for every input. */
module RleTheorems {
  import opened Basics
  import opened Rle
  import opened RleDecoder
  import opened RleEncoder

  // ---------- The tokens of an input ----------

  lemma {:induction false} ExpandConcat(a: seq<Token>, b: seq<Token>)
    ensures ExpandAll(a + b) == ExpandAll(a) + ExpandAll(b)
  {
    if a == [] {
      assert a + b == b;
    } else {
      assert (a + b)[1..] == a[1..] + b;
      ExpandConcat(a[1..], b);
    }
  }

  lemma ExpandCons(t: Token, ts: seq<Token>)
    ensures ExpandAll([t] + ts) == Expand(t) + ExpandAll(ts)
  {
    assert ([t] + ts)[1..] == ts;
  }

  lemma {:induction false} SplitExpands(s: seq<uint8>)
    ensures ExpandAll(Split(s)) == s
  {
    if s == [] {
    } else if |s| < MAX_COPY {
      assert ExpandAll([Copy(s)][1..]) == [];
    } else {
      SplitExpands(s[MAX_COPY..]);
      ExpandCons(Copy(s[..MAX_COPY]), Split(s[MAX_COPY..]));
      SplitAt(s, MAX_COPY);
    }
  }

  lemma ExpandNone()
    ensures ExpandAll([]) == []
  {
  }

  lemma NoRunInSlice(s: seq<uint8>, lo: nat, hi: nat)
    requires lo <= hi <= |s|
    requires forall i: nat :: lo <= i && i + MIN_RUN <= hi ==> !RunAt(s, i)
    ensures NoRun(s[lo..hi])
  {
    forall i: nat | i < hi - lo
      ensures !RunAt(s[lo..hi], i)
    {
      assert i + MIN_RUN <= hi - lo ==> !RunAt(s, lo + i);
    }
  }

  lemma {:induction false} SplitEmitted(s: seq<uint8>)
    requires NoRun(s)
    ensures forall t :: t in Split(s) ==> Emitted(t)
  {
    if |s| >= MAX_COPY {
      NoRunInSlice(s, 0, MAX_COPY);
      NoRunInSlice(s, MAX_COPY, |s|);
      assert s[..MAX_COPY] == s[0..MAX_COPY] && s[MAX_COPY..] == s[MAX_COPY..|s|];
      SplitEmitted(s[MAX_COPY..]);
    }
  }

  /** The first literal, the first run and what follows them. */
  lemma Anatomy(x: seq<uint8>) returns (p: nat, n: nat)
    ensures p == FirstRun(x) && NoRun(x[..p])
    ensures p < |x| ==> MIN_RUN <= n <= MAX_RUN && p + n <= |x| && x[p..p + n] == Repeat(x[p], n)
    ensures p < |x| ==> AfterLiteral(x) == [Run(n, x[p])] + Tokens(x[p + n..])
    ensures p == |x| ==> n == 0 && AfterLiteral(x) == []
  {
    hide Tokens, FirstRun;
    p := FirstRun(x);
    NoRunInSlice(x, 0, p);
    assert x[0..p] == x[..p];
    if p == |x| {
      n := 0;
    } else {
      n := RunLength(x[p..], x[p], MAX_RUN);
      RunIsLongEnough(x[p..], x[p], MAX_RUN, MIN_RUN);
      assert forall i :: 0 <= i < n ==> x[p..p + n][i] == x[p..][i];
    }
  }

  lemma ThreePieces<T>(x: seq<T>, p: nat, n: nat)
    requires p + n <= |x|
    ensures x == x[..p] + (x[p..p + n] + x[p + n..])
  {
  }

  /** Expanding the reference encoding gives the input back. */
  lemma {:induction false} TokensExpand(x: seq<uint8>)
    ensures ExpandAll(Tokens(x)) == x
    decreases |x|
  {
    var p, n := Anatomy(x);
    assert Tokens(x) == Split(x[..p]) + AfterLiteral(x);
    hide Tokens, Split, FirstRun, AfterLiteral, ExpandAll, Repeat;
    ExpandConcat(Split(x[..p]), AfterLiteral(x));
    SplitExpands(x[..p]);
    if p == |x| {
      ExpandNone();
      assert x[..p] + [] == x;
    } else {
      var rest := x[p + n..];
      TokensExpand(rest);
      ExpandCons(Run(n, x[p]), Tokens(rest));
      ThreePieces(x, p, n);
    }
  }

  /** Canonical form: every emitted token is of legal size, and no literal block
      contains five equal consecutive bytes. */
  lemma {:induction false} TokensEmitted(x: seq<uint8>)
    ensures forall t :: t in Tokens(x) ==> Emitted(t)
    decreases |x|
  {
    hide Split, FirstRun, AfterLiteral, RunAt;
    var p, n := Anatomy(x);
    SplitEmitted(x[..p]);
    if p < |x| {
      TokensEmitted(x[p + n..]);
    }
  }

  // ---------- Length fields ----------

  lemma S16RoundTrip(v: int)
    requires -32768 <= v < 32768
    ensures FromS16(Le16(v)[0], Le16(v)[1]) == v
  {
    hide Le16, FromLe16, ToInt16;
    Le16RoundTrip(v);
    ToInt16Same(v);
  }

  lemma S16Onto(lo: uint8, hi: uint8)
    ensures -32768 <= FromS16(lo, hi) < 32768 && Le16(FromS16(lo, hi)) == [lo, hi]
  {
    hide Le16, FromLe16, ToInt16;
    Le16Onto(lo, hi);
    Le16Signed(FromLe16(lo, hi));
  }

  /** Every length field the encoder writes fits the 16-bit field, with room at both ends. */
  lemma LengthFieldsFit(x: seq<uint8>)
    ensures forall t :: t in Tokens(x) ==> -32767 <= LengthField(t) <= 32766 && OnWire(t)
  {
    TokensEmitted(x);
  }

  // ---------- Decoding ----------

  lemma DecodeOneRun(count: nat, value: uint8, rest: seq<uint8>, sourcelen: int)
    requires OnWire(Run(count, value)) && sourcelen >= 3
    ensures Decode(Serialize(Run(count, value)) + rest, sourcelen)
         == Decode(rest, sourcelen - 3).After(Repeat(value, count))
  {
    hide Decode, Le16, FromS16, Repeat;
    var field := Le16((MIN_RUN - 1) - count);
    var src := Serialize(Run(count, value)) + rest;
    S16RoundTrip((MIN_RUN - 1) - count);
    assert src == [field[0], field[1], value] + rest;
    DecodeRun(src, sourcelen);
    assert src[3..] == rest;
  }

  lemma DecodeOneCopy(bytes: seq<uint8>, rest: seq<uint8>, sourcelen: int)
    requires OnWire(Copy(bytes)) && sourcelen >= 2 + |bytes|
    ensures Decode(Serialize(Copy(bytes)) + rest, sourcelen)
         == Decode(rest, sourcelen - 2 - |bytes|).After(bytes)
  {
    hide Decode, Le16, FromS16, WholeChunks;
    var field := Le16(|bytes| - 1);
    var src := Serialize(Copy(bytes)) + rest;
    S16RoundTrip(|bytes| - 1);
    assert src == [field[0], field[1]] + bytes + rest;
    DecodeCopy(src, sourcelen, |bytes|);
    assert src[2 + |bytes|..] == rest && src[2..2 + |bytes|] == bytes;
  }

  lemma DecodeOne(t: Token, rest: seq<uint8>, sourcelen: int)
    requires OnWire(t) && sourcelen >= |Serialize(t)|
    ensures Decode(Serialize(t) + rest, sourcelen)
         == Decode(rest, sourcelen - |Serialize(t)|).After(Expand(t))
  {
    hide Decode;
    match t
    case Run(count, value) => DecodeOneRun(count, value, rest, sourcelen);
    case Copy(bytes) => DecodeOneCopy(bytes, rest, sourcelen);
  }

  /** The decoder inverts serialization, whatever follows in the stream. */
  lemma {:induction false} DecodeInverts(ts: seq<Token>, tail: seq<uint8>)
    requires forall t :: t in ts ==> OnWire(t)
    ensures Decode(SerializeAll(ts) + tail, |SerializeAll(ts)|) == Done(ExpandAll(ts), 0, tail)
  {
    hide Le16, Serialize, Expand;
    if ts == [] {
      assert [] + tail == tail;
    } else {
      var rest := SerializeAll(ts[1..]);
      assert SerializeAll(ts) + tail == Serialize(ts[0]) + (rest + tail);
      DecodeOne(ts[0], rest + tail, |SerializeAll(ts)|);
      DecodeInverts(ts[1..], tail);
    }
  }

  /** Round trip: decoding what the encoder wrote, from a stream that may go on, writes exactly
      the input, succeeds, uses up the source count and leaves the rest of the stream alone. */
  lemma RoundTrip(x: seq<uint8>, tail: seq<uint8>)
    ensures var c := SerializeAll(Tokens(x)); Decode(c + tail, |c|) == Done(x, 0, tail)
  {
    LengthFieldsFit(x);
    TokensExpand(x);
    DecodeInverts(Tokens(x), tail);
  }

  /** A successful decoding finds as many bytes as the first field asks for. */
  lemma EnoughBytes(src: seq<uint8>, sourcelen: int)
    requires sourcelen > 1 && Decode(src, sourcelen).Done?
    ensures |src| >= 3
    ensures FromS16(src[0], src[1]) >= 0 ==> |src| >= 3 + FromS16(src[0], src[1])
  {
    hide FromS16;
  }

  lemma FrontSlice(src: seq<uint8>, n: nat)
    requires 2 <= n <= |src|
    ensures src[..n] == [src[0], src[1]] + src[2..n]
  {
  }

  lemma FrontRun(src: seq<uint8>, t: Token)
    requires |src| >= 3 && FromS16(src[0], src[1]) < 0
    requires t == Run((MIN_RUN - 1) - FromS16(src[0], src[1]), src[2])
    ensures OnWire(t) && Serialize(t) == src[..3]
  {
    S16Onto(src[0], src[1]);
    hide Le16, FromS16;
  }

  lemma FrontCopy(src: seq<uint8>, t: Token, n: nat)
    requires 3 <= n <= |src| && n == 3 + FromS16(src[0], src[1]) && t == Copy(src[2..n])
    ensures OnWire(t) && Serialize(t) == src[..n]
  {
    S16Onto(src[0], src[1]);
    hide Le16, FromS16, Serialize;
    SerializeCopy(src[2..n]);
    FrontSlice(src, n);
  }

  /** The first step of a successful decoding takes one whole token. */
  lemma HeadToken(src: seq<uint8>, sourcelen: int) returns (t: Token, n: nat)
    requires sourcelen > 1 && Decode(src, sourcelen).Done?
    ensures OnWire(t) && n == |Serialize(t)| >= 3 && n <= |src| && src[..n] == Serialize(t)
    ensures Decode(src, sourcelen) == Decode(src[n..], sourcelen - n).After(Expand(t))
  {
    EnoughBytes(src, sourcelen);
    hide Decode, FromS16, Repeat, WholeChunks, OnWire, Serialize;
    var field := FromS16(src[0], src[1]);
    if field < 0 {
      t := Run((MIN_RUN - 1) - field, src[2]);
      n := 3;
      FrontRun(src, t);
      DecodeRun(src, sourcelen);
    } else {
      t := Copy(src[2..3 + field]);
      n := 3 + field;
      FrontCopy(src, t, n);
      DecodeCopy(src, sourcelen, field + 1);
    }
  }

  /** The decoder accepts exactly the serialized token sequences: if it succeeds with its
      count used up, the bytes it took are a token sequence and it wrote their expansion. */
  lemma {:induction false} DecodeIsGrammar(src: seq<uint8>, sourcelen: int) returns (ts: seq<Token>)
    requires Decode(src, sourcelen).Done? && Decode(src, sourcelen).left == 0
    ensures forall t :: t in ts ==> OnWire(t)
    ensures |SerializeAll(ts)| == sourcelen
    ensures src == SerializeAll(ts) + Decode(src, sourcelen).rest
    ensures Decode(src, sourcelen).out == ExpandAll(ts)
    decreases |src|
  {
    hide Serialize, Expand;
    if sourcelen <= 1 {
      ts := [];
      assert [] + src == src;
    } else {
      var t, n := HeadToken(src, sourcelen);
      hide Decode, SerializeAll;
      var us := DecodeIsGrammar(src[n..], sourcelen - n);
      ts := [t] + us;
      SerializeCons(t, us);
      assert ts[1..] == us;
      assert src == src[..n] + src[n..];
      Assoc(src[..n], SerializeAll(us), Decode(src, sourcelen).rest);
    }
  }

  // ---------- Size ----------

  /** The number of largest-size blocks that n bytes need. */
  function Blocks(n: nat): nat {
    (n + 32766) / 32767
  }

  lemma BlocksStep(n: nat)
    requires n >= MAX_COPY
    ensures Blocks(n) == 1 + Blocks(n - MAX_COPY)
  {
  }

  lemma {:induction false} SplitSize(s: seq<uint8>)
    ensures |SerializeAll(Split(s))| == |s| + 2 * Blocks(|s|)
  {
    if s == [] {
    } else if |s| < MAX_COPY {
      SerializeOne(Copy(s));
    } else {
      SplitSize(s[MAX_COPY..]);
      SerializeCons(Copy(s[..MAX_COPY]), Split(s[MAX_COPY..]));
      BlocksStep(|s|);
    }
  }

  /** A literal, a run of at least five and a rest: the run pays for the last block before it. */
  lemma RunPays(literal: nat, run: nat, rest: nat)
    requires run >= MIN_RUN
    ensures literal + 2 * Blocks(literal) + 3 + rest + 2 * Blocks(rest)
         <= literal + run + rest + 2 * Blocks(literal + run + rest)
  {
    var l, r := literal / MAX_COPY, Blocks(rest);
    assert Blocks(literal) <= l + 1;
    assert literal >= l * MAX_COPY && rest + MAX_COPY - 1 >= r * MAX_COPY;
    assert literal + run + rest + MAX_COPY - 1 >= (l + r) * MAX_COPY;
    assert Blocks(literal + run + rest) >= l + r;
  }

  lemma SerializeNone()
    ensures SerializeAll([]) == []
  {
  }

  /** Worst case: two bytes of overhead for every 32767 bytes of input, rounded up. */
  lemma {:induction false} WorstCaseSize(x: seq<uint8>)
    ensures |SerializeAll(Tokens(x))| <= |x| + 2 * Blocks(|x|)
    decreases |x|
  {
    hide Split, FirstRun, AfterLiteral, Blocks, SerializeAll, Repeat;
    var p, n := Anatomy(x);
    SerializeNone();
    SerializeConcat(Split(x[..p]), AfterLiteral(x));
    SplitSize(x[..p]);
    if p < |x| {
      SerializeCons(Run(n, x[p]), Tokens(x[p + n..]));
      WorstCaseSize(x[p + n..]);
      RunPays(p, n, |x| - p - n);
    }
  }

  /** The bound is met exactly by every input without a run. */
  lemma WorstCaseIsReached(x: seq<uint8>)
    requires NoRun(x)
    ensures |SerializeAll(Tokens(x))| == |x| + 2 * Blocks(|x|)
  {
    FirstRunIs(x, |x|);
    assert x[..|x|] == x;
    assert Split(x) + [] == Split(x);
    SplitSize(x);
  }

  // ---------- The two programs ----------

  /** The two programs, one after the other. */
  method CompressThenDecompress(x: seq<uint8>, tail: seq<uint8>) returns (c: seq<uint8>, o: Outcome)
    ensures o == Done(x, 0, tail)
    ensures |c| <= |x| + 2 * Blocks(|x|)
  {
    c := Compress(x);
    o := Decompress(c + tail, |c|);
    RoundTrip(x, tail);
    WorstCaseSize(x);
  }

  // ---------- Sources that are cut short ----------

  lemma CutToken(t: Token, k: nat, sourcelen: int)
    requires OnWire(t) && k < |Serialize(t)| <= sourcelen
    ensures Decode(Serialize(t)[..k], sourcelen).Failed? && Decode(Serialize(t)[..k], sourcelen).out <= Expand(t)
  {
    var src := Serialize(t)[..k];
    if k >= 2 {
      S16RoundTrip(LengthField(t));
      assert src[0] == Le16(LengthField(t))[0] && src[1] == Le16(LengthField(t))[1];
      hide Decode, Le16, FromS16, WholeChunks;
      match t
      case Run(_, _) =>
        DecodeRun(src, sourcelen);
      case Copy(bytes) =>
        DecodeCopy(src, sourcelen, |bytes|);
        assert src[2..] == bytes[..k - 2];
    }
  }

  /** If the source ends before the count is used up, decoding fails, and what it has written is a
      part of the right output from the front. */
  lemma {:induction false} TruncatedFails(ts: seq<Token>, k: nat)
    requires forall t :: t in ts ==> OnWire(t)
    requires k < |SerializeAll(ts)|
    ensures var o := Decode(SerializeAll(ts)[..k], |SerializeAll(ts)|); o.Failed? && o.out <= ExpandAll(ts)
    decreases |ts|
  {
    hide Le16, Serialize, Expand, Decode, OnWire;
    var first, rest, total := Serialize(ts[0]), SerializeAll(ts[1..]), |SerializeAll(ts)|;
    assert ts[0] in ts;
    if k < |first| {
      assert (first + rest)[..k] == first[..k];
      CutToken(ts[0], k, total);
    } else {
      var k1 := k - |first|;
      assert (first + rest)[..k] == first + rest[..k1];
      DecodeOne(ts[0], rest[..k1], total);
      assert total - |first| == |rest|;
      TruncatedFails(ts[1..], k1);
    }
  }

  // ---------- The longest run ----------

  lemma NoTokens()
    ensures Tokens([]) == []
  {
  }

  lemma StartsWithRun(x: seq<uint8>)
    requires RunAt(x, 0)
    ensures FirstRun(x) == 0 && Tokens(x) == AfterLiteral(x)
  {
    FirstRunIs(x, 0);
    assert x[..0] == [] && Split([]) == [];
    hide AfterLiteral, Split, RunAt, FirstRun;
    assert [] + AfterLiteral(x) == AfterLiteral(x);
  }

  lemma RepeatRest(v: uint8, n: nat, m: nat)
    requires m <= n
    ensures Repeat(v, n)[m..] == Repeat(v, n - m)
  {
  }

  /** 5 to 32771 equal bytes are one run; of more, the run takes 32771. */
  lemma LongestRun(v: uint8, n: nat)
    requires n >= 5
    ensures n <= 32771 ==> Tokens(Repeat(v, n)) == [Run(n, v)]
    ensures n > 32771 ==> Tokens(Repeat(v, n)) == [Run(32771, v)] + Tokens(Repeat(v, n - 32771))
  {
    hide Tokens, AfterLiteral, RunLength, FirstRun, Repeat;
    var x := Repeat(v, n);
    var m := if n <= 32771 then n else 32771;
    StartsWithRun(x);
    assert x[0..] == x;
    RunLengthIs(x, v, m);
    AfterLiteralRun(x, 0, m);
    RepeatRest(v, n, m);
    if m == n {
      NoTokens();
      assert x[m..] == [] && [Run(m, v)] + [] == [Run(m, v)];
    }
  }

  // ---------- The wire format in numbers ----------

  /** A block that begins with a number n from 0 to 32767, low byte first, is n + 1 bytes as they are. */
  lemma CopyInNumbers(n: nat, bytes: seq<uint8>, rest: seq<uint8>, sourcelen: int)
    requires n <= 32767 && |bytes| == n + 1 && sourcelen >= n + 3
    ensures Decode([(n % 256) as uint8, (n / 256) as uint8] + bytes + rest, sourcelen)
         == Decode(rest, sourcelen - 3 - n).After(bytes)
  {
    Le16Short(n);
    hide Decode, Le16;
    SerializeCopy(bytes);
    DecodeOneCopy(bytes, rest, sourcelen);
  }

  lemma NegativeLe16(n: nat)
    requires 1 <= n <= 32768
    ensures var u, field: int := 65536 - n, -(n as int);
            Le16(field) == [(u % 256) as uint8, (u / 256) as uint8]
  {
    var u, field: int := 65536 - n, -(n as int);
    assert field == u - 65536 && field % 256 == u % 256 && field / 256 == u / 256 - 256;
  }

  /** One that begins with -n, n from 1 to 32768, is the next byte n + 4 times. */
  lemma RunInNumbers(n: nat, value: uint8, rest: seq<uint8>, sourcelen: int)
    requires 1 <= n <= 32768 && sourcelen >= 3
    ensures var u := 65536 - n;
            Decode([(u % 256) as uint8, (u / 256) as uint8, value] + rest, sourcelen)
            == Decode(rest, sourcelen - 3).After(Repeat(value, n + 4))
  {
    var u := 65536 - n;
    var field: int := -(n as int);
    NegativeLe16(n);
    hide Decode, Le16, Repeat;
    assert LengthField(Run(n + 4, value)) == field;
    assert Le16(field) + [value] == [(u % 256) as uint8, (u / 256) as uint8, value];
    DecodeOneRun(n + 4, value, rest, sourcelen);
  }

  /** A block that is cut short still delivers the whole chunks of 128 bytes there are. */
  lemma CutCopyInNumbers(n: nat, bytes: seq<uint8>, k: nat, sourcelen: int)
    requires n <= 32767 && |bytes| == n + 1 && sourcelen >= n + 3 && k <= n
    ensures Decode([(n % 256) as uint8, (n / 256) as uint8] + bytes[..k], sourcelen) == Failed(bytes[..k / 128 * 128])
  {
    Le16Short(n);
    S16RoundTrip(n);
    hide Decode, Le16, FromS16;
    var src := [(n % 256) as uint8, (n / 256) as uint8] + bytes[..k];
    DecodeCopy(src, sourcelen, n + 1);
    assert src[2..] == bytes[..k];
  }
}
