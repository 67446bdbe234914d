/** The decompressor at work: chunks of a file in, a small buffer, external RAM out. */
module Z80Stream {
  import opened Basics
  import opened ExtRam
  import opened Z80

  const LOCAL_CHUNK_SIZE := 64
  const WRITE_BUFFER_SIZE := 128

  /** One more byte, and one more of the last ones. */
  lemma WrittenSnoc<T>(s: seq<T>, last: nat, x: T)
    requires last <= |s|
    ensures (s + [x])[..|s| - last] == s[..|s| - last]
    ensures (s + [x])[|s| - last..] == s[|s| - last..] + [x]
  {
  }

  lemma StoreLast(m: map<nat, uint8>, a: nat, front: seq<uint8>, at: nat, back: seq<uint8>, s: seq<uint8>)
    requires at == a + |front| && s == front + back
    ensures Store(Store(m, a, front), at, back) == Store(m, a, s)
  {
    StoreNext(m, a, front, back);
  }

  /** struct z80writebuffer with sna__z80_buffered_writer and sna__z80_buffered_flush. */
  class WriteBuffer {
    const buffer: array<uint8>
    const ram: Ram<uint8>
    var memaddress: nat
    var off: nat
    /** The memory and the address at the beginning, and all that was written since. */
    ghost var initial: map<nat, uint8>
    ghost var base: nat
    ghost var written: seq<uint8>

    /** The last `off` bytes are in the buffer, those before them in memory. */
    ghost predicate Buffered()
      reads this, buffer, ram
    {
      && buffer.Length == WRITE_BUFFER_SIZE && off <= WRITE_BUFFER_SIZE && off <= |written|
      && memaddress == base + (|written| - off)
      && buffer[..off] == written[|written| - off..]
      && ram.mem == Store(initial, base, written[..|written| - off])
    }

    /** The buffer has been written whenever it was full. */
    ghost predicate Valid()
      reads this, buffer, ram
    {
      Buffered() && off < WRITE_BUFFER_SIZE && (|written| - off) % WRITE_BUFFER_SIZE == 0
    }

    constructor (ram: Ram<uint8>, memaddress: nat)
      ensures Valid() && fresh(buffer) && this.ram == ram
      ensures initial == ram.mem && base == memaddress && written == []
    {
      buffer := new uint8[WRITE_BUFFER_SIZE];
      this.ram, this.memaddress, off := ram, memaddress, 0;
      initial, base, written := ram.mem, memaddress, [];
      StoreEmpty(ram.mem, memaddress);
    }

    method Flush()
      requires Buffered()
      modifies this`memaddress, this`off, ram
      ensures off == 0 && memaddress == base + |written|
      ensures ram.mem == Store(initial, base, written)
    {
      hide Store;
      if off == 0 {
        assert written[..|written|] == written;
      } else {
        SplitAt(written, |written| - off);
        StoreLast(initial, base, written[..|written| - off], memaddress, buffer[..off], written);
        ram.WriteBlock(memaddress, buffer[..off]);
        memaddress := memaddress + off;
        off := 0;
      }
    }

    method Put(val: uint8)
      requires Buffered() && off < WRITE_BUFFER_SIZE
      modifies this`off, this`written, buffer
      ensures Buffered() && off == old(off) + 1 && written == old(written) + [val]
    {
      hide Store;
      WrittenSnoc(written, off, val);
      buffer[off] := val;
      off := off + 1;
      written := written + [val];
      assert buffer[..off] == old(buffer[..off]) + [val];
    }

    method Write(val: uint8)
      requires Valid()
      modifies this, buffer, ram
      ensures Valid() && initial == old(initial) && base == old(base)
      ensures written == old(written) + [val]
    {
      hide Store;
      Put(val);
      if off == buffer.Length {
        Flush();
        assert written[..|written|] == written;
      }
    }
  }

  class Decompressor {
    const version: int
    const writer: WriteBuffer
    var state: Mode
    var repcnt: uint8
    /** A 16-bit count. */
    var bytesOutput: nat

    ghost predicate Valid()
      reads this`bytesOutput, writer, writer.buffer, writer.ram
    {
      writer.Valid() && bytesOutput == |writer.written| % 0x10000
    }

    /** z80_decomp_init; the source leaves repcnt as it is on the stack, see RepcntUnused. */
    constructor (version: int, writer: WriteBuffer)
      requires writer.Valid() && writer.written == []
      ensures Valid() && this.version == version && this.writer == writer
      ensures State(state, repcnt) == START
    {
      this.version, this.writer := version, writer;
      state, repcnt, bytesOutput := Raw, 0, 0;
    }

    method Output(x: uint8)
      requires Valid()
      modifies this`bytesOutput, writer, writer.buffer, writer.ram
      ensures Valid() && writer.initial == old(writer.initial) && writer.base == old(writer.base)
      ensures writer.written == old(writer.written) + [x]
    {
      hide WriteBuffer.Valid;
      Sum16(|writer.written|, 1);
      bytesOutput := (bytesOutput + 1) % 0x10000;
      writer.Write(x);
    }

    method OutputRepeat(x: uint8)
      requires Valid()
      modifies this`bytesOutput, this`repcnt, writer, writer.buffer, writer.ram
      ensures Valid() && writer.initial == old(writer.initial) && writer.base == old(writer.base)
      ensures writer.written == old(writer.written) + Repeat(x, old(repcnt) as nat) && repcnt == 255
    {
      ghost var total := repcnt as nat;
      var more := repcnt != 0;
      repcnt := if repcnt == 0 then 255 else repcnt - 1;
      assert writer.written == old(writer.written) + Repeat(x, 0);
      while more
        invariant Valid() && writer.initial == old(writer.initial) && writer.base == old(writer.base)
        invariant more ==> repcnt as nat < total
        invariant !more ==> repcnt == 255
        invariant writer.written
               == old(writer.written) + Repeat(x, if more then total - 1 - repcnt as nat else total)
        decreases if more then repcnt as nat + 1 else 0
      {
        ghost var n := total - 1 - repcnt as nat;
        Output(x);
        assert Repeat(x, n) + [x] == Repeat(x, n + 1);
        Assoc(old(writer.written), Repeat(x, n), [x]);
        more := repcnt != 0;
        repcnt := if repcnt == 0 then 255 else repcnt - 1;
      }
    }

    /** The switch of z80_decompress on one byte. */
    method Feed(v: uint8)
      requires Valid() && state != Eof
      modifies this, writer, writer.buffer, writer.ram
      ensures Valid() && writer.initial == old(writer.initial) && writer.base == old(writer.base)
      ensures var (st1, out1) := Step(version, State(old(state), old(repcnt)), v);
              State(state, repcnt) == st1 && writer.written == old(writer.written) + out1
    {
      hide Store, Decompressor.Valid;
      ghost var w := writer.written;
      assert w + [] == w;
      match state
      case Raw =>
        if v == ED {
          state := Ed0;
        } else if version == 1 && v == 0 {
          state := Zero;
        } else {
          Output(v);
        }
      case Ed0 =>
        if v == ED {
          state := Ed1;
        } else {
          Output(ED);
          Output(v);
          state := Raw;
          assert w + [ED] + [v] == w + [ED, v];
        }
      case Ed1 =>
        repcnt := v;
        state := Len;
      case Zero =>
        if v == ED {
          state := Zed0;
        } else {
          Output(0);
          Output(v);
          state := Raw;
          assert w + [0] + [v] == w + [0, v];
        }
      case Zed0 =>
        if v == ED {
          state := Zed1;
        } else {
          Output(0);
          Output(ED);
          Output(v);
          state := Raw;
          assert w + [0] + [ED] + [v] == w + [0, ED, v];
        }
      case Zed1 =>
        if v == 0 {
          state := Eof;
        } else {
          Output(0);
          repcnt := v;
          state := Len;
        }
      case Len =>
        OutputRepeat(v);
        state := Raw;
    }

    /** z80_decompress: result -1 for data after the end marker. */
    method Decompress(source: seq<uint8>) returns (r: int)
      requires Valid()
      modifies this, writer, writer.buffer, writer.ram
      ensures Valid() && writer.initial == old(writer.initial) && writer.base == old(writer.base)
      ensures var ran := Run(version, State(old(state), old(repcnt)), source);
              && r == (if ran.ok then 0 else -1)
              && State(state, repcnt) == ran.st
              && writer.written == old(writer.written) + ran.out
    {
      hide Step, Store;
      ghost var st := State(state, repcnt);
      ghost var w := writer.written;
      assert source[..0] == [];
      assert w + [] == w;
      for i := 0 to |source|
        invariant Valid() && writer.initial == old(writer.initial) && writer.base == old(writer.base)
        invariant Run(version, st, source[..i]) == Result(true, State(state, repcnt), Run(version, st, source[..i]).out)
        invariant writer.written == w + Run(version, st, source[..i]).out
      {
        RunSnoc(version, st, source, i);
        ghost var out := Run(version, st, source[..i]).out;
        if state == Eof {
          RunConcat(version, st, source[..i + 1], source[i + 1..]);
          assert source[..i + 1] + source[i + 1..] == source;
          return -1;
        }
        ghost var out1 := Step(version, State(state, repcnt), source[i]).1;
        Assoc(w, out, out1);
        Feed(source[i]);
      }
      assert source[..|source|] == source;
      return 0;
    }
  }

  // ---------- Blocks ----------

  /** The counter of a run is set before it is used: outside the state Len its value does not
      influence the output. */
  lemma {:induction false} RepcntUnused(version: int, st: State, repcnt: uint8, s: seq<uint8>)
    requires st.mode != Len
    ensures var r, r' := Run(version, st, s), Run(version, st.(repcnt := repcnt), s);
            r.ok == r'.ok && r.out == r'.out && r.st.mode == r'.st.mode
    decreases |s|
  {
    if s != [] && st.mode != Eof {
      var st1 := Step(version, st, s[0]).0;
      if st1.mode != Len {
        RepcntUnused(version, st1, Step(version, st.(repcnt := repcnt), s[0]).0.repcnt, s[1..]);
      }
    }
  }

  /** Number of bytes up to and including the first end marker that version 1 recognises. */
  function EofAt(st: State, s: seq<uint8>): Option<nat>
    decreases |s|
  {
    if st.mode == Eof then Some(0)
    else if s == [] then None
    else
      match EofAt(Step(1, st, s[0]).0, s[1..])
      case None => None
      case Some(k) => Some(k + 1)
  }

  lemma {:induction false} EofRun(st: State, s: seq<uint8>)
    ensures EofAt(st, s).None? <==> Run(1, st, s).ok && Run(1, st, s).st.mode != Eof
    ensures EofAt(st, s).Some? ==> EofAt(st, s).value <= |s|
    ensures EofAt(st, s) == Some(|s|) <==> Run(1, st, s).ok && Run(1, st, s).st.mode == Eof
    decreases |s|
  {
    hide Step;
    if s != [] && st.mode != Eof {
      EofRun(Step(1, st, s[0]).0, s[1..]);
    }
  }

  /** What follows the marker adds nothing to the output. */
  lemma {:induction false} NothingAfterEof(st: State, s: seq<uint8>, k: nat)
    requires EofAt(st, s) == Some(k) && k <= |s|
    ensures Run(1, st, s).out == Run(1, st, s[..k]).out
    decreases |s|
  {
    hide Step;
    if s != [] && st.mode != Eof {
      NothingAfterEof(Step(1, st, s[0]).0, s[1..], k - 1);
      assert s[..k][1..] == s[1..][..k - 1];
    }
  }

  lemma {:induction false} EofSplit(st: State, a: seq<uint8>, b: seq<uint8>)
    ensures EofAt(st, a).Some? ==> EofAt(st, a + b) == EofAt(st, a)
    ensures EofAt(st, a).None? ==>
      EofAt(st, a + b) == match EofAt(Run(1, st, a).st, b) case None => None case Some(k) => Some(|a| + k)
    decreases |a|
  {
    hide Step;
    if a == [] {
      assert a + b == b;
    } else if st.mode != Eof {
      assert (a + b)[1..] == a[1..] + b;
      EofSplit(Step(1, st, a[0]).0, a[1..], b);
    }
  }

  /** Marked code that version 1 can read, seen as a file: the marker ends the file exactly. */
  lemma MarkedFile(s: seq<uint8>)
    requires Expand(s).Some?
    ensures Readable(s, false)
       <==> EofAt(START, s + MARKER) == Some(|s + MARKER|) && Run(1, START, s + MARKER).out == Expand(s).value
  {
    hide Readable, Expand, Run, EofAt;
    Version1Decodes(s);
    EofRun(START, s + MARKER);
  }

  /** The number of bytes stored, mod 65536; an error; or no return: at the end of the file a
      version 1 block that has not met its end marker reads nothing for ever. */
  datatype BlockResult = Bytes(n: nat) | Error | Hang

  /** What a version 2 block takes from the file: a short file is read in whole chunks; a block
      of length 0 takes one chunk all the same. */
  function Fed(file: seq<uint8>, len: nat): seq<uint8> {
    if len == 0 then file[..if |file| < LOCAL_CHUNK_SIZE then |file| else LOCAL_CHUNK_SIZE]
    else if len <= |file| then file[..len]
    else file[..|file| / LOCAL_CHUNK_SIZE * LOCAL_CHUNK_SIZE]
  }

  /** The part of the output that leaves the write buffer without a final flush. */
  function Flushed(out: seq<uint8>): seq<uint8> {
    out[..|out| / WRITE_BUFFER_SIZE * WRITE_BUFFER_SIZE]
  }

  /** What becomes of a version 2 block. */
  ghost predicate Version2Result(file: seq<uint8>, len: nat, memaddress: nat,
                                 before: map<nat, uint8>, r: BlockResult, after: map<nat, uint8>)
  {
    var ran := Run(2, START, Fed(file, len));
    if len > |file| then r == Error && after == Store(before, memaddress, Flushed(ran.out))
    else
      && after == Store(before, memaddress, ran.out)
      && r == if ran.st.mode == Raw then Bytes(|ran.out| % 0x10000) else Error
  }

  /** What becomes of a version 1 block: it loads if the first end marker is recognised and nothing
      follows it in the same chunk; data after it is an error, and without one the loop never ends. */
  ghost predicate Version1Result(file: seq<uint8>, memaddress: nat,
                                 before: map<nat, uint8>, r: BlockResult, after: map<nat, uint8>)
  {
    match EofAt(START, file)
    case None => r == Hang
    case Some(e) =>
      && e <= |file|
      && var out := Run(1, START, file[..e]).out;
         if e % LOCAL_CHUNK_SIZE == 0 || e == |file| then
           r == Bytes(|out| % 0x10000) && after == Store(before, memaddress, out)
         else r == Error && after == Store(before, memaddress, Flushed(out))
  }

  /** The decompressor has been fed the first `at` bytes of the file without error. */
  ghost predicate Streaming(d: Decompressor, file: seq<uint8>, at: nat)
    reads d, d.writer, d.writer.buffer, d.writer.ram
  {
    && d.Valid() && at <= |file|
    && Run(d.version, START, file[..at]) == Result(true, State(d.state, d.repcnt), d.writer.written)
  }

  lemma RunNextChunk(version: int, file: seq<uint8>, at: nat, chunk: seq<uint8>)
    requires at + |chunk| <= |file| && chunk == file[at..at + |chunk|]
    requires Run(version, START, file[..at]).ok
    ensures Run(version, START, file[..at + |chunk|])
         == Run(version, Run(version, START, file[..at]).st, chunk).After(Run(version, START, file[..at]).out)
  {
    hide Run;
    assert file[..at + |chunk|] == file[..at] + chunk;
    RunConcat(version, START, file[..at], chunk);
  }

  /** One read of n bytes and one call of z80_decompress. */
  method Pump(d: Decompressor, file: seq<uint8>, at: nat, n: nat) returns (r: int)
    requires Streaming(d, file, at) && at + n <= |file|
    modifies d, d.writer, d.writer.buffer, d.writer.ram
    ensures d.writer.initial == old(d.writer.initial) && d.writer.base == old(d.writer.base)
    ensures r >= 0 ==> Streaming(d, file, at + n)
    ensures r < 0 ==> !Run(d.version, START, file[..at + n]).ok
    ensures d.Valid() && d.writer.written == Run(d.version, START, file[..at + n]).out
  {
    hide Store, Run, Step;
    var chunk := file[at..at + n];
    RunNextChunk(d.version, file, at, chunk);
    r := d.Decompress(chunk);
  }

  // ---------- How a block ends ----------

  lemma WholeChunks(n: nat, at: nat)
    requires at % LOCAL_CHUNK_SIZE == 0 && at <= n < at + LOCAL_CHUNK_SIZE
    ensures n / LOCAL_CHUNK_SIZE * LOCAL_CHUNK_SIZE == at
  {
  }

  lemma WholeBuffers(n: nat, at: nat)
    requires at % WRITE_BUFFER_SIZE == 0 && at <= n < at + WRITE_BUFFER_SIZE
    ensures n / WRITE_BUFFER_SIZE * WRITE_BUFFER_SIZE == at
  {
  }

  lemma UnflushedMemory(d: Decompressor)
    requires d.Valid()
    ensures d.writer.ram.mem == Store(d.writer.initial, d.writer.base, Flushed(d.writer.written))
  {
    hide Store;
    var w := d.writer;
    WholeBuffers(|w.written|, |w.written| - w.off);
  }

  /** What streaming says of the decompressor's state. */
  lemma StreamState(d: Decompressor, file: seq<uint8>, at: nat)
    requires Streaming(d, file, at)
    ensures at <= |file| && d.Valid()
    ensures Run(d.version, START, file[..at]) == Result(true, State(d.state, d.repcnt), d.writer.written)
  {
  }

  /** A version 2 block in a file that is too short. */
  lemma ShortFile(d: Decompressor, file: seq<uint8>, at: nat, len: nat)
    requires Streaming(d, file, at) && d.version == 2
    requires at % LOCAL_CHUNK_SIZE == 0 && |file| < len && |file| - at < LOCAL_CHUNK_SIZE
    ensures Version2Result(file, len, d.writer.base, d.writer.initial, Error, d.writer.ram.mem)
  {
    hide Store, Run, Decompressor.Valid, Flushed;
    WholeChunks(|file|, at);
    UnflushedMemory(d);
    assert file[..at] == Fed(file, len);
  }

  lemma {:induction false} NoEof(st: State, s: seq<uint8>)
    requires st.mode in {Raw, Ed0, Ed1, Len}
    ensures Run(2, st, s).st.mode != Eof
    decreases |s|
  {
    if s != [] {
      NoEof(Step(2, st, s[0]).0, s[1..]);
    }
  }

  lemma Version2Never(file: seq<uint8>, at: nat)
    requires at <= |file|
    ensures Run(2, START, file[..at]).ok && Run(2, START, file[..at]).st.mode != Eof
  {
    Version2Expands(START, file[..at]);
    NoEof(START, file[..at]);
  }

  lemma EofNow(st: State, s: seq<uint8>)
    ensures EofAt(st, s) == Some(0) <==> st.mode == Eof
  {
  }

  /** Version 1 has reached the end marker at the end of a chunk. */
  lemma MarkerAt(file: seq<uint8>, at: nat)
    requires at <= |file| && Run(1, START, file[..at]).ok
    ensures Run(1, START, file[..at]).st.mode == Eof <==> EofAt(START, file) == Some(at)
    ensures Run(1, START, file[..at]).st.mode != Eof ==>
      match EofAt(START, file) case None => true case Some(e) => e > at
  {
    hide Run, EofAt;
    EofRun(START, file[..at]);
    assert file == file[..at] + file[at..];
    EofSplit(START, file[..at], file[at..]);
    if EofAt(START, file[..at]).None? && EofAt(Run(1, START, file[..at]).st, file[at..]) == Some(0) {
      EofNow(Run(1, START, file[..at]).st, file[at..]);
    }
  }

  /** Version 1 has met data after the end marker. */
  lemma DataAfterMarker(d: Decompressor, file: seq<uint8>, at: nat, n: nat)
    requires at + n <= |file| && at % LOCAL_CHUNK_SIZE == 0 && n <= LOCAL_CHUNK_SIZE
    requires Run(1, START, file[..at]).ok && Run(1, START, file[..at]).st.mode != Eof
    requires !Run(1, START, file[..at + n]).ok
    requires d.Valid() && d.writer.written == Run(1, START, file[..at + n]).out
    ensures Version1Result(file, d.writer.base, d.writer.initial, Error, d.writer.ram.mem)
  {
    hide Run, EofAt, Store, Flushed, Decompressor.Valid;
    UnflushedMemory(d);
    MarkerAt(file, at);
    EofRun(START, file[..at + n]);
    assert file == file[..at + n] + file[at + n..];
    EofSplit(START, file[..at + n], file[at + n..]);
    var e := EofAt(START, file).value;
    NothingAfterEof(START, file[..at + n], e);
    assert file[..at + n][..e] == file[..e];
  }

  /** The file has ended without an end marker. */
  lemma NoMarker(file: seq<uint8>, memaddress: nat, before: map<nat, uint8>, after: map<nat, uint8>)
    requires Run(1, START, file).ok && Run(1, START, file).st.mode != Eof
    ensures Version1Result(file, memaddress, before, Hang, after)
  {
    EofRun(START, file);
  }

  /** How many bytes the next read asks for, and how many it gets. */
  method ReadChunk(file: seq<uint8>, at: nat, left: int) returns (toread: nat, got: nat)
    requires at <= |file|
    ensures toread == if 0 < left < LOCAL_CHUNK_SIZE then left else LOCAL_CHUNK_SIZE
    ensures got == if |file| - at < toread then |file| - at else toread
  {
    toread := LOCAL_CHUNK_SIZE;
    if left > 0 {
      toread := if left > LOCAL_CHUNK_SIZE then LOCAL_CHUNK_SIZE else left;
    }
    got := if |file| - at < toread then |file| - at else toread;
  }

  lemma Loaded(file: seq<uint8>, at: nat, memaddress: nat, before: map<nat, uint8>, after: map<nat, uint8>)
    requires at <= |file| && (at % LOCAL_CHUNK_SIZE == 0 || at == |file|)
    requires EofAt(START, file) == Some(at)
    requires after == Store(before, memaddress, Run(1, START, file[..at]).out)
    ensures Version1Result(file, memaddress, before, Bytes(|Run(1, START, file[..at]).out| % 0x10000), after)
  {
  }

  /** The code after the loop: what is left in the buffer is written, and a version 2 block must
      have ended between two pieces of code. */
  method Finish(decomp: Decompressor, file: seq<uint8>, at: nat, len: int) returns (r: BlockResult)
    requires Streaming(decomp, file, at)
    requires len < 0 ==> decomp.version == 1 && decomp.state == Eof && (at % LOCAL_CHUNK_SIZE == 0 || at == |file|)
    requires len >= 0 ==> decomp.version == 2 && file[..at] == Fed(file, len) && len <= |file|
    modifies decomp.writer`memaddress, decomp.writer`off, decomp.writer.ram
    ensures len >= 0 ==>
      Version2Result(file, len, old(decomp.writer.base), old(decomp.writer.initial), r, decomp.writer.ram.mem)
    ensures len < 0 ==>
      Version1Result(file, old(decomp.writer.base), old(decomp.writer.initial), r, decomp.writer.ram.mem)
  {
    hide Store, Run, Step, EofAt;
    ghost var out := Run(decomp.version, START, file[..at]).out;
    decomp.writer.Flush();
    if len < 0 {
      MarkerAt(file, at);
      Loaded(file, at, decomp.writer.base, decomp.writer.initial, decomp.writer.ram.mem);
    } else if decomp.state != Raw {
      return Error;
    }
    return Bytes(decomp.bytesOutput);
  }

  lemma Nothing(version: int)
    ensures Run(version, START, []) == Result(true, START, [])
  {
  }

  lemma Begin(d: Decompressor, file: seq<uint8>)
    requires d.Valid() && State(d.state, d.repcnt) == START && d.writer.written == []
    ensures Streaming(d, file, 0)
  {
    assert file[..0] == [];
    Nothing(d.version);
  }

  /** sna__z80_handle_block_compress on a file that goes on with `file`: len < 0 selects version 1. */
  method HandleBlock(file: seq<uint8>, len: int, memaddress: nat, ram: Ram<uint8>) returns (r: BlockResult)
    modifies ram
    ensures len >= 0 ==> Version2Result(file, len, memaddress, old(ram.mem), r, ram.mem)
    ensures len < 0 ==> Version1Result(file, memaddress, old(ram.mem), r, ram.mem)
  {
    hide Store, Run, Step, Version1Result, Version2Result, EofAt, Streaming, Decompressor.Valid, WriteBuffer.Valid;
    var wbuf := new WriteBuffer(ram, memaddress);
    var decomp := new Decompressor(if len < 0 then 1 else 2, wbuf);
    var left, at := len, 0;
    Begin(decomp, file);
    while true
      invariant fresh(wbuf) && fresh(wbuf.buffer) && fresh(decomp)
      invariant decomp.writer == wbuf && wbuf.ram == ram && decomp.version == if len < 0 then 1 else 2
      invariant wbuf.initial == old(ram.mem) && wbuf.base == memaddress
      invariant at <= |file| && Streaming(decomp, file, at) && decomp.state != Eof
      invariant at % LOCAL_CHUNK_SIZE == 0 || (len < 0 && at == |file|)
      invariant if len <= 0 then left == len && (len == 0 ==> at == 0) else left == len - at > 0
      decreases |file| - at
    {
      var toread, got := ReadChunk(file, at, left);
      if left > 0 {
        if got != toread {
          ShortFile(decomp, file, at, len);
          return Error;
        }
      } else if len < 0 && got == 0 {
        StreamState(decomp, file, at);
        assert file[..at] == file;
        NoMarker(file, memaddress, old(ram.mem), ram.mem);
        return Hang;
      }
      StreamState(decomp, file, at);
      var d := Pump(decomp, file, at, got);
      if len >= 0 {
        Version2Never(file, at + got);
      }
      if d < 0 {
        DataAfterMarker(decomp, file, at, got);
        return Error;
      }
      at := at + got;
      StreamState(decomp, file, at);
      if left > 0 {
        left := left - got;
      }
      if decomp.state == Eof {
        break;
      }
      if left == 0 {
        break;
      }
    }
    r := Finish(decomp, file, at, len);
  }

  /** For a complete file a version 2 block loads exactly if its bytes are complete code; RAM then
      holds the expansion, nothing else has changed, and the result is its length mod 65536. */
  lemma Version2Loads(file: seq<uint8>, len: nat, memaddress: nat,
                      before: map<nat, uint8>, r: BlockResult, after: map<nat, uint8>)
    requires 0 < len <= |file| && Version2Result(file, len, memaddress, before, r, after)
    ensures match Expand(file[..len])
            case None => r == Error
            case Some(x) => r == Bytes(|x| % 0x10000) && after == Store(before, memaddress, x)
  {
    hide Store, Run, Expand;
    Version2Expands(START, file[..len]);
  }

  /** A version 1 file that is complete code and the end marker loads exactly if it is readable. */
  lemma Version1Loads(s: seq<uint8>, memaddress: nat, before: map<nat, uint8>, r: BlockResult, after: map<nat, uint8>)
    requires Expand(s).Some? && Version1Result(s + MARKER, memaddress, before, r, after)
    requires Readable(s, false)
    ensures r == Bytes(|Expand(s).value| % 0x10000) && after == Store(before, memaddress, Expand(s).value)
  {
    hide Store, Run, Expand, EofAt, Readable;
    MarkedFile(s);
    var file := s + MARKER;
    assert file[..|file|] == file;
  }

  // ---------- The chunks in numbers ----------

  /** A version 1 block in numbers: it loads if its marker ends the file or a chunk of 64 bytes. */
  lemma Version1InNumbers(file: seq<uint8>, memaddress: nat,
                          before: map<nat, uint8>, r: BlockResult, after: map<nat, uint8>)
    requires Version1Result(file, memaddress, before, r, after)
    ensures match EofAt(START, file)
            case None => r == Hang
            case Some(e) => (r.Bytes? <==> e % 64 == 0 || e == |file|) && (r == Error <==> !r.Bytes?)
  {
    hide Run, EofAt, Store, Flushed;
  }

  /** A version 2 block in a file that is too short is an error; memory has what the whole chunks of
      64 bytes expand to, as far as it fills buffers of 128. */
  lemma ShortFileInNumbers(file: seq<uint8>, len: nat, memaddress: nat,
                           before: map<nat, uint8>, r: BlockResult, after: map<nat, uint8>)
    requires |file| < len && Version2Result(file, len, memaddress, before, r, after)
    ensures r == Error
    ensures var out := Run(2, START, file[..|file| / 64 * 64]).out;
            after == Store(before, memaddress, out[..|out| / 128 * 128])
  {
    hide Run, Store;
  }

  /** A version 2 block of length 0 is taken to be the next 64 bytes of the file, or all there are. */
  lemma LengthZeroInNumbers(file: seq<uint8>, memaddress: nat,
                            before: map<nat, uint8>, r: BlockResult, after: map<nat, uint8>)
    requires Version2Result(file, 0, memaddress, before, r, after)
    ensures match Expand(file[..if |file| < 64 then |file| else 64])
            case None => r == Error
            case Some(x) => r == Bytes(|x| % 65536) && after == Store(before, memaddress, x)
  {
    hide Store, Run, Expand;
    Version2Expands(START, file[..if |file| < 64 then |file| else 64]);
  }
}
