/**
 The run-length code used for firmware images: its wire format, and a reference encoding,
 `Tokens`, that looks at the whole input at once. The on-line encoder (RleEncoder) is proved
 equal to that reference; what it and the decoder promise is proved about it (RleTheorems).
 */
module Rle {
  import opened Basics

  const MIN_RUN := 5
  const MAX_RUN := 32767 + MIN_RUN - 1
  const MAX_COPY := 32767
  const MAX_READ := MAX_COPY + MIN_RUN - 1
  const RLE_READ_BLOCK_SIZE := 128
  const EOF := -1

  // ---------- The wire format ----------

  datatype Token = Run(count: nat, value: uint8) | Copy(bytes: seq<uint8>)

  /** What a 16-bit length field can express; the encoder stays inside `Emitted`. */
  predicate OnWire(t: Token) {
    match t
    case Run(count, _) => MIN_RUN <= count <= MIN_RUN + 32767
    case Copy(bytes) => 1 <= |bytes| <= 32768
  }

  /** Five equal bytes start at index i. */
  predicate RunAt(x: seq<uint8>, i: nat) {
    i + MIN_RUN <= |x| && x[i] == x[i+1] == x[i+2] == x[i+3] == x[i+4]
  }

  predicate NoRun(x: seq<uint8>) {
    forall i: nat :: i < |x| ==> !RunAt(x, i)
  }

  /** The tokens the encoder may produce. */
  predicate Emitted(t: Token) {
    match t
    case Run(count, _) => MIN_RUN <= count <= MAX_RUN
    case Copy(bytes) => 1 <= |bytes| <= MAX_COPY && NoRun(bytes)
  }

  /** The signed number a token's length field holds. */
  function LengthField(t: Token): int {
    match t
    case Run(count, _) => (MIN_RUN - 1) - count
    case Copy(bytes) => |bytes| - 1
  }

  function FromS16(lo: uint8, hi: uint8): int {
    ToInt16(FromLe16(lo, hi))
  }

  function Serialize(t: Token): seq<uint8> {
    Le16(LengthField(t)) + (match t case Run(_, value) => [value] case Copy(bytes) => bytes)
  }

  function SerializeAll(ts: seq<Token>): seq<uint8> {
    if ts == [] then [] else Serialize(ts[0]) + SerializeAll(ts[1..])
  }

  function Expand(t: Token): seq<uint8> {
    match t
    case Run(count, value) => Repeat(value, count)
    case Copy(bytes) => bytes
  }

  function ExpandAll(ts: seq<Token>): seq<uint8> {
    if ts == [] then [] else Expand(ts[0]) + ExpandAll(ts[1..])
  }

  // ---------- Reference encoding of a whole input ----------

  /** The least index at which a run starts, or |x|. */
  function FirstRun(x: seq<uint8>): (p: nat)
    ensures p <= |x|
    ensures p < |x| ==> RunAt(x, p)
    ensures forall i: nat :: i < p ==> !RunAt(x, i)
  {
    if x == [] || RunAt(x, 0) then 0
    else
      var q := FirstRun(x[1..]);
      assert forall i: nat :: 0 < i < |x| ==> (RunAt(x, i) <==> RunAt(x[1..], i - 1));
      q + 1
  }

  /** How many leading bytes equal v, at most `cap`. */
  function RunLength(x: seq<uint8>, v: uint8, cap: nat): (n: nat)
    ensures n <= |x| && n <= cap
    ensures forall i :: 0 <= i < n ==> x[i] == v
    ensures n < |x| && n < cap ==> x[n] != v
  {
    if x == [] || cap == 0 || x[0] != v then 0 else 1 + RunLength(x[1..], v, cap - 1)
  }

  /** A literal cut into copy blocks, all but the last of them of the largest size. */
  function Split(s: seq<uint8>): seq<Token> {
    if s == [] then []
    else if |s| < MAX_COPY then [Copy(s)]
    else [Copy(s[..MAX_COPY])] + Split(s[MAX_COPY..])
  }

  lemma RunIsLongEnough(x: seq<uint8>, v: uint8, cap: nat, k: nat)
    requires k <= |x| && k <= cap && forall i :: 0 <= i < k ==> x[i] == v
    ensures RunLength(x, v, cap) >= k
  {
    var n := RunLength(x, v, cap);
    if n < k {
      assert false;
    }
  }

  /** Greedy encoding: a literal up to the first run, that run as long as it may be, and so on. */
  function Tokens(x: seq<uint8>): seq<Token>
    decreases |x|, 1
  {
    Split(x[..FirstRun(x)]) + AfterLiteral(x)
  }

  function AfterLiteral(x: seq<uint8>): seq<Token>
    decreases |x|, 0
  {
    var p := FirstRun(x);
    if p == |x| then []
    else
      var n := RunLength(x[p..], x[p], MAX_RUN);
      RunIsLongEnough(x[p..], x[p], MAX_RUN, MIN_RUN);
      [Run(n, x[p])] + Tokens(x[p + n..])
  }

  // ---------- Facts about these definitions ----------

  lemma AfterLiteralRun(x: seq<uint8>, p: nat, n: nat)
    requires p == FirstRun(x) < |x| && n == RunLength(x[p..], x[p], MAX_RUN)
    ensures p + n <= |x| && AfterLiteral(x) == [Run(n, x[p])] + Tokens(x[p + n..])
  {
    hide Tokens, FirstRun, RunLength;
  }

  lemma FirstRunIs(x: seq<uint8>, p: nat)
    requires p <= |x|
    requires p < |x| ==> RunAt(x, p)
    requires forall i: nat :: i < p ==> !RunAt(x, i)
    ensures FirstRun(x) == p
  {
  }

  lemma {:induction false} SerializeConcat(a: seq<Token>, b: seq<Token>)
    ensures SerializeAll(a + b) == SerializeAll(a) + SerializeAll(b)
  {
    if a == [] {
      assert a + b == b;
    } else {
      assert (a + b)[1..] == a[1..] + b;
      SerializeConcat(a[1..], b);
    }
  }

  lemma SerializeCons(t: Token, ts: seq<Token>)
    ensures SerializeAll([t] + ts) == Serialize(t) + SerializeAll(ts)
  {
    assert ([t] + ts)[1..] == ts;
  }

  lemma SerializeCopy(s: seq<uint8>)
    ensures Serialize(Copy(s)) == Le16(|s| - 1) + s
  {
  }

  lemma SerializeOne(t: Token)
    ensures SerializeAll([t]) == Serialize(t)
  {
    assert SerializeAll([t][1..]) == [];
  }
}
