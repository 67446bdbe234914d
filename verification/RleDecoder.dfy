/**
 The streaming decoder of esp32/main/rle.c.
 The reader is a file or stream that delivers what it has; the writer always succeeds.
 */
module RleDecoder {
  import opened Basics
  import opened Rle

  /** Result 0, with the bytes written, what is left of the source count and of the source;
      or result -1, with the bytes written before the decoder gave up. */
  datatype Outcome = Done(out: seq<uint8>, left: int, rest: seq<uint8>) | Failed(out: seq<uint8>)
  {
    function After(written: seq<uint8>): Outcome {
      match this
      case Done(out, left, rest) => Done(written + out, left, rest)
      case Failed(out) => Failed(written + out)
    }
  }

  /** A copy block that is cut short still delivers the chunks that were complete. */
  function WholeChunks(available: nat): (n: nat)
    ensures n <= available
  {
    available / RLE_READ_BLOCK_SIZE * RLE_READ_BLOCK_SIZE
  }

  /** What decoding `sourcelen` bytes from the front of src writes and leaves. */
  function Decode(src: seq<uint8>, sourcelen: int): Outcome
    decreases |src|
  {
    if sourcelen <= 1 then Done([], sourcelen, src)
    else if |src| < 2 then Failed([])
    else
      var field := FromS16(src[0], src[1]);
      if field < 0 then
        if |src| < 3 then Failed([])
        else Decode(src[3..], sourcelen - 3).After(Repeat(src[2], (MIN_RUN - 1) - field))
      else
        var n := field + 1;
        if |src| < 2 + n then Failed(src[2..][..WholeChunks(|src| - 2)])
        else Decode(src[2 + n..], sourcelen - 2 - n).After(src[2..2 + n])
  }

  lemma DecodeRun(src: seq<uint8>, sourcelen: int)
    requires sourcelen > 1 && |src| >= 2 && FromS16(src[0], src[1]) < 0
    ensures |src| < 3 ==> Decode(src, sourcelen) == Failed([])
    ensures |src| >= 3 ==>
      Decode(src, sourcelen)
      == Decode(src[3..], sourcelen - 3).After(Repeat(src[2], (MIN_RUN - 1) - FromS16(src[0], src[1])))
  {
    hide FromS16, Repeat, WholeChunks;
  }

  lemma DecodeCopy(src: seq<uint8>, sourcelen: int, n: nat)
    requires sourcelen > 1 && |src| >= 2 && n > 0 && FromS16(src[0], src[1]) == n - 1
    ensures |src| < 2 + n ==> Decode(src, sourcelen) == Failed(src[2..][..WholeChunks(|src| - 2)])
    ensures |src| >= 2 + n ==>
      Decode(src, sourcelen) == Decode(src[2 + n..], sourcelen - 2 - n).After(src[2..2 + n])
  {
    hide FromS16, Repeat, WholeChunks;
  }

  // ---------- The decoder's loops ----------

  /** A read of n bytes from position pos: what is there, up to n bytes. */
  function Available(src: seq<uint8>, pos: nat, n: nat): (r: seq<uint8>)
    requires pos <= |src|
    ensures |r| == if n <= |src| - pos then n else |src| - pos
  {
    if n <= |src| - pos then src[pos..pos + n] else src[pos..]
  }

  method CopyBlock(size: nat, src: seq<uint8>, pos: nat) returns (r: int, out: seq<uint8>)
    requires pos <= |src|
    ensures r == if size <= |src| - pos then 0 else -1
    ensures out == if size <= |src| - pos then src[pos..pos + size] else src[pos..][..WholeChunks(|src| - pos)]
  {
    var left, at := size, pos;
    out := [];
    while left > 0
      invariant 0 <= left <= size && at == pos + (size - left) <= |src|
      invariant out == src[pos..at]
      invariant left == 0 || (at - pos) % RLE_READ_BLOCK_SIZE == 0
    {
      var chunk := if left < RLE_READ_BLOCK_SIZE then left else RLE_READ_BLOCK_SIZE;
      var buffer := Available(src, at, chunk);
      if |buffer| != chunk {
        assert WholeChunks(|src| - pos) == at - pos;
        assert src[pos..][..at - pos] == src[pos..at];
        return -1, out;
      }
      out := out + buffer;
      assert out == src[pos..at + chunk];
      left := left - chunk;
      at := at + chunk;
    }
    return 0, out;
  }

  method WriteRun(value: uint8, count: nat) returns (out: seq<uint8>)
    ensures out == Repeat(value, count)
  {
    var left: nat := count;
    out := [];
    while left > 0
      invariant left <= count
      invariant out == Repeat(value, count - left)
    {
      var chunk := if left < RLE_READ_BLOCK_SIZE then left else RLE_READ_BLOCK_SIZE;
      out := out + Repeat(value, chunk);
      left := left - chunk;
      assert out == Repeat(value, count - left);
    }
  }

  /** The decoder is at position pos with `left` bytes to go and has written `out`. */
  ghost predicate Reached(src: seq<uint8>, sourcelen: int, pos: nat, left: int, out: seq<uint8>) {
    pos <= |src| && Decode(src, sourcelen) == Decode(src[pos..], left).After(out)
  }

  lemma ReachedStart(src: seq<uint8>, sourcelen: int)
    ensures Reached(src, sourcelen, 0, sourcelen, [])
  {
    hide Decode;
    assert src[0..] == src;
    var o := Decode(src, sourcelen);
    assert o.After([]) == o by {
      assert [] + o.out == o.out;
    }
  }

  lemma AfterAfter(o: Outcome, a: seq<uint8>, b: seq<uint8>)
    ensures o.After(b).After(a) == o.After(a + b)
  {
    assert a + (b + o.out) == a + b + o.out;
  }

  lemma ReachedRun(src: seq<uint8>, sourcelen: int, pos: nat, left: int, out: seq<uint8>)
    requires Reached(src, sourcelen, pos, left, out) && left > 1
    requires pos + 2 <= |src| && FromS16(src[pos], src[pos + 1]) < 0
    ensures pos + 2 == |src| ==> Decode(src, sourcelen) == Failed(out)
    ensures pos + 2 < |src| ==>
      Reached(src, sourcelen, pos + 3, left - 3,
              out + Repeat(src[pos + 2], (MIN_RUN - 1) - FromS16(src[pos], src[pos + 1])))
  {
    hide Decode, FromS16, Repeat;
    var s := src[pos..];
    DecodeRun(s, left);
    if pos + 2 < |src| {
      assert s[3..] == src[pos + 3..];
      AfterAfter(Decode(s[3..], left - 3), out, Repeat(s[2], (MIN_RUN - 1) - FromS16(s[0], s[1])));
    }
  }

  lemma ReachedCopy(src: seq<uint8>, sourcelen: int, pos: nat, left: int, out: seq<uint8>, n: nat)
    requires Reached(src, sourcelen, pos, left, out) && left > 1
    requires pos + 2 <= |src| && FromS16(src[pos], src[pos + 1]) == n - 1 && n > 0
    ensures |src| < pos + 2 + n ==>
      Decode(src, sourcelen) == Failed(out + src[pos + 2..][..WholeChunks(|src| - pos - 2)])
    ensures pos + 2 + n <= |src| ==>
      Reached(src, sourcelen, pos + 2 + n, left - 2 - n, out + src[pos + 2..pos + 2 + n])
  {
    hide Decode, FromS16, WholeChunks;
    var s := src[pos..];
    DecodeCopy(s, left, n);
    assert s[2..] == src[pos + 2..];
    if pos + 2 + n <= |src| {
      assert s[2 + n..] == src[pos + 2 + n..] && s[2..2 + n] == src[pos + 2..pos + 2 + n];
      AfterAfter(Decode(s[2 + n..], left - 2 - n), out, s[2..2 + n]);
    }
  }

  lemma ReachedEnd(src: seq<uint8>, sourcelen: int, pos: nat, left: int, out: seq<uint8>)
    requires Reached(src, sourcelen, pos, left, out) && (left <= 1 || |src| - pos < 2)
    ensures Decode(src, sourcelen) == if left <= 1 then Done(out, left, src[pos..]) else Failed(out)
  {
    assert out + [] == out;
  }

  /** rle_decompress_stream_fn: result 0 is Done, result -1 is Failed. */
  method Decompress(src: seq<uint8>, sourcelen: int) returns (o: Outcome)
    ensures o == Decode(src, sourcelen)
  {
    hide Decode, Reached, FromS16, Repeat, WholeChunks;
    var left, pos, out := sourcelen, 0, [];
    ReachedStart(src, sourcelen);
    while left > 1
      invariant 0 <= pos <= |src| && Reached(src, sourcelen, pos, left, out)
      decreases |src| - pos
    {
      var field := Available(src, pos, 2);
      if |field| != 2 {
        ReachedEnd(src, sourcelen, pos, left, out);
        return Failed(out);
      }
      var countChar := FromS16(field[0], field[1]);
      left := left - 2;
      pos := pos + 2;
      if countChar < 0 {
        ReachedRun(src, sourcelen, pos - 2, left + 2, out);
        countChar := (MIN_RUN - 1) - countChar;
        var symbol := Available(src, pos, 1);
        if |symbol| <= 0 {
          return Failed(out);
        }
        var run := WriteRun(symbol[0], countChar);
        out := out + run;
        pos := pos + 1;
        left := left - 1;
      } else {
        countChar := countChar + 1;
        ReachedCopy(src, sourcelen, pos - 2, left + 2, out, countChar);
        var r, block := CopyBlock(countChar, src, pos);
        out := out + block;
        if r < 0 {
          return Failed(out);
        }
        pos := pos + countChar;
        left := left - countChar;
      }
    }
    ReachedEnd(src, sourcelen, pos, left, out);
    return Done(out, left, src[pos..]);
  }
}
