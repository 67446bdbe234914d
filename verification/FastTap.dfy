/** Fast loading of TAP tapes into external RAM, and the round trip with saving. */
module FastTap {
  import opened Basics
  import opened ExtRam
  import opened Tap

  /** The playing tape: what the stream still holds, its size and the count of bytes read.
      `playing` is false once fasttap__stop has destroyed the instance. */
  datatype Tape = Tape(playing: bool, rest: seq<uint8>, size: nat, read: nat)

  datatype Loaded = Loaded(tape: Tape, mem: Memory, r: int)

  /** The data of a block of len bytes, behind the three bytes of its header. */
  function BlockData(t: Tape, m: Memory, len: nat): Loaded {
    if |t.rest| < len then Loaded(t.(rest := [], read := t.read + len), Store(m, FASTTAP_ADDRESS_DATA, t.rest), -1)
    else
      var m1 := Store(m, FASTTAP_ADDRESS_DATA, t.rest[..len]);
      var m2 := Store(m1, FASTTAP_ADDRESS_LENLSB, Le16(Pred16(len)));
      Loaded(Tape(t.read + len < t.size, t.rest[len..], t.size, t.read + len), m2, 0)
  }

  /** fasttap_tap__next on the stream: the new tape and memory before the status is written. */
  function NextBlock(t: Tape, m: Memory): Loaded {
    if |t.rest| < 3 then Loaded(t.(rest := [], read := t.read + |t.rest|), m, -1)
    else BlockData(t.(rest := t.rest[3..], read := t.read + 3), m, Pred16(FromLe16(t.rest[0], t.rest[1])))
  }

  /** fasttap__next: the status is written unless no tape is playing. */
  function Next(t: Tape, m: Memory): Loaded {
    if !t.playing then Loaded(t, m, -1)
    else
      var l := NextBlock(t, m);
      l.(mem := Store(l.mem, FASTTAP_ADDRESS_STATUS, [if l.r == 0 then 1 else 0xff]))
  }

  class Player {
    var playing: bool
    var rest: seq<uint8>
    var size: nat
    var read: nat

    ghost function Abs(): Tape
      reads this
    {
      Tape(playing, rest, size, read)
    }

    /** fasttap__prepare_from_stream. */
    constructor (stream: seq<uint8>, size: nat)
      ensures Abs() == Tape(true, stream, size, 0)
    {
      playing, rest, this.size, read := true, stream, size, 0;
    }

    /** A read that must not be short delivers what there is, up to n bytes. */
    method Read(n: nat) returns (data: seq<uint8>)
      modifies this`rest, this`read
      ensures data == (if |old(rest)| < n then old(rest) else old(rest)[..n])
      ensures rest == old(rest)[|data|..] && read == old(read) + |data|
    {
      var k := if |rest| < n then |rest| else n;
      data := rest[..k];
      rest := rest[k..];
      read := read + k;
    }

    /** stream__read for a chunk: any positive number of bytes, or none at the end. */
    method ReadSome(n: nat) returns (data: seq<uint8>)
      requires n > 0
      modifies this`rest
      ensures |data| <= n && old(rest) == data + rest && (data == [] <==> old(rest) == [])
    {
      var k: nat :| k <= n && k <= |rest| && (k == 0 <==> |rest| == 0)
        by { assert 0 <= (if |rest| == 0 then 0 else 1) <= n; }
      data := rest[..k];
      SplitAt(rest, k);
      rest := rest[k..];
    }

    /** fpga__write_extram_block_from_stream. */
    method WriteExtramBlockFromStream(ram: Ram<uint8>, address: nat, size: nat) returns (r: int)
      modifies this`rest, ram
      ensures r == if |old(rest)| < size then -1 else 0
      ensures ram.mem == Store(old(ram.mem), address, if r == 0 then old(rest)[..size] else old(rest))
      ensures rest == if r == 0 then old(rest)[size..] else []
    {
      hide Store;
      var left, at := size, address;
      ghost var s, done := rest, 0;
      StoreEmpty(ram.mem, address);
      while left > 0
        invariant 0 <= done && 0 <= left && done + left == size && done <= |s| && at == address + done
        invariant rest == s[done..] && ram.mem == Store(old(ram.mem), address, s[..done])
      {
        var chunksize := if left < CHUNK_SIZE then left else CHUNK_SIZE;
        var chunk := ReadSome(chunksize);
        if |chunk| <= 0 {
          assert s[..done] == s;
          return -1;
        }
        assert s[done..] == chunk + rest;
        assert s[..done + |chunk|] == s[..done] + chunk;
        StoreNext(old(ram.mem), address, s[..done], chunk);
        ram.WriteBlock(at, chunk);
        at := at + |chunk|;
        left := left - |chunk|;
        done := done + |chunk|;
      }
      return 0;
    }

    method LoadData(ram: Ram<uint8>, len: nat) returns (r: int)
      requires playing
      modifies this, ram
      ensures Loaded(Abs(), ram.mem, r) == BlockData(old(Abs()), old(ram.mem), len)
    {
      hide Store, Le16, Pred16;
      r := WriteExtramBlockFromStream(ram, FASTTAP_ADDRESS_DATA, len);
      read := read + len;
      if r < 0 {
        return -1;
      }
      ram.WriteBlock(FASTTAP_ADDRESS_LENLSB, Le16(Pred16(len)));
      if read >= size {
        playing := false;
      }
      return 0;
    }

    /** fasttap_tap__next; the type and length the Spectrum asks for are not looked at. */
    method TapNext(ram: Ram<uint8>) returns (r: int)
      requires playing
      modifies this, ram
      ensures Loaded(Abs(), ram.mem, r) == NextBlock(old(Abs()), old(ram.mem))
    {
      hide BlockData, Pred16, FromLe16;
      var field := Read(2);
      if |field| < 2 {
        return -1;
      }
      var kind := Read(1);
      if |kind| < 1 {
        return -1;
      }
      assert rest == old(rest)[3..];
      r := LoadData(ram, Pred16(FromLe16(field[0], field[1])));
    }

    method FastNext(ram: Ram<uint8>) returns (r: int)
      modifies this, ram
      ensures Loaded(Abs(), ram.mem, r) == Next(old(Abs()), old(ram.mem))
    {
      hide Store, NextBlock;
      if !playing {
        return -1;
      }
      r := TapNext(ram);
      ram.WriteBlock(FASTTAP_ADDRESS_STATUS, [if r == 0 then 1 else 0xff]);
    }
  }

  // ---------- Round trip ----------

  /** What the Spectrum finds in memory after a block was loaded. */
  ghost predicate Presents(m: Memory, data: seq<uint8>) {
    var n := (|data| + 65535) % 65536;
    && Fetch(m, 0x028000, 1) == [1]
    && Fetch(m, 0x028001, 2) == [(n % 256) as uint8, (n / 256) as uint8]
    && Fetch(m, 0x028003, |data|) == (data + [Checksum(data)])[1..]
  }

  lemma LengthBytes(n: nat, k: nat)
    requires n < 0x10000 && k == (n + 65535) % 65536
    ensures Le16(Pred16(n)) == [(k % 256) as uint8, (k / 256) as uint8]
  {
    hide Le16;
    assert Pred16(n) == k;
    Le16Short(k);
  }

  lemma IsPresented(m: Memory, data: seq<uint8>)
    requires |data| < 0x10000
    requires Fetch(m, FASTTAP_ADDRESS_STATUS, 1) == [1]
    requires Fetch(m, FASTTAP_ADDRESS_LENLSB, 2) == Le16(Pred16(|data|))
    requires Fetch(m, FASTTAP_ADDRESS_DATA, |data|) == (data + [Checksum(data)])[1..]
    ensures Presents(m, data)
  {
    hide Fetch, Checksum, Le16, Pred16;
    LengthBytes(|data|, (|data| + 65535) % 65536);
  }

  lemma SavedLength(n: nat)
    requires n < 0x10000
    ensures Pred16(FromLe16(Le16(n + 1)[0], Le16(n + 1)[1])) == n
  {
    hide FromLe16, Le16;
    Le16RoundTrip(n + 1);
  }

  lemma StoredBlock(data: seq<uint8>, tail: seq<uint8>)
    requires |data| < 0x10000
    ensures var s := SaveBlock(data) + tail;
            && |s| >= 3 && Pred16(FromLe16(s[0], s[1])) == |data|
            && s[3..] == (data + [Checksum(data)])[1..] + tail
            && s[2] == (data + [Checksum(data)])[0]
  {
    hide FromLe16, Checksum;
    var s := SaveBlock(data) + tail;
    var field := Le16(|data| + 1);
    assert s == field + ((data + [Checksum(data)]) + tail);
    assert |field| == 2 && s[0] == field[0] && s[1] == field[1];
    hide Le16;
    SavedLength(|data|);
    assert s[3..] == ((data + [Checksum(data)]) + tail)[1..];
  }

  /** Loading a saved block succeeds, whatever follows it: its type byte is skipped, the rest of
      its data and its checksum are in memory, and the length reported is that of the data
      without the type byte, in 16 bits. */
  lemma LoadsSavedBlock(t: Tape, m: Memory, data: seq<uint8>, tail: seq<uint8>)
    requires t.playing && t.rest == SaveBlock(data) + tail && |data| < 0x10000
    ensures var l := Next(t, m);
            && l.r == 0 && Presents(l.mem, data)
            && l.tape == Tape(t.read + |SaveBlock(data)| < t.size, tail, t.size, t.read + |SaveBlock(data)|)
  {
    hide Store, Le16, Fetch, Checksum, FromLe16, Presents;
    var stored := (data + [Checksum(data)])[1..];
    StoredBlock(data, tail);
    assert (stored + tail)[..|data|] == stored && (stored + tail)[|data|..] == tail;
    var m1 := Store(m, FASTTAP_ADDRESS_DATA, stored);
    var m2 := Store(m1, FASTTAP_ADDRESS_LENLSB, Le16(Pred16(|data|)));
    var m3 := Store(m2, FASTTAP_ADDRESS_STATUS, [1]);
    FetchStored(m, FASTTAP_ADDRESS_DATA, stored);
    FetchElsewhere(m1, FASTTAP_ADDRESS_DATA, |data|, FASTTAP_ADDRESS_LENLSB, Le16(Pred16(|data|)));
    FetchElsewhere(m2, FASTTAP_ADDRESS_DATA, |data|, FASTTAP_ADDRESS_STATUS, [1]);
    FetchStored(m1, FASTTAP_ADDRESS_LENLSB, Le16(Pred16(|data|)));
    FetchElsewhere(m2, FASTTAP_ADDRESS_LENLSB, 2, FASTTAP_ADDRESS_STATUS, [1]);
    FetchStored(m2, FASTTAP_ADDRESS_STATUS, [1]);
    IsPresented(m3, data);
  }

  /** The tape ends inside the next block: inside its three bytes of header, or inside the data
      that the header announces. */
  predicate CutShort(s: seq<uint8>) {
    |s| < 3 || |s| - 3 < (s[0] as nat + 256 * s[1] as nat + 65535) % 65536
  }

  /** Memory m with one byte changed at an address, and a block. */
  ghost predicate OnlyStored(m: Memory, m1: Memory, status: uint8, data: seq<uint8>) {
    && Fetch(m1, 0x028000, 1) == [status] && Fetch(m1, 0x028003, |data|) == data
    && forall a: nat :: a != 0x028000 && !(0x028003 <= a < 0x028003 + |data|) ==>
         (a in m1 <==> a in m) && (a in m ==> m1[a] == m[a])
  }

  lemma HeaderLength(lo: uint8, hi: uint8)
    ensures Pred16(FromLe16(lo, hi)) == (lo as nat + 256 * hi as nat + 65535) % 65536
  {
  }

  lemma StatusAndData(m: Memory, data: seq<uint8>)
    ensures OnlyStored(m, Store(Store(m, FASTTAP_ADDRESS_DATA, data), FASTTAP_ADDRESS_STATUS, [0xFF]), 0xFF, data)
  {
    hide Store, Fetch;
    var m1 := Store(m, FASTTAP_ADDRESS_DATA, data);
    FetchStored(m, FASTTAP_ADDRESS_DATA, data);
    FetchElsewhere(m1, FASTTAP_ADDRESS_DATA, |data|, FASTTAP_ADDRESS_STATUS, [0xFF]);
    FetchStored(m1, FASTTAP_ADDRESS_STATUS, [0xFF]);
  }

  /** A load fails exactly if the tape ends inside the block. Then the status is 0xFF, the data that
      there was is in memory, the length is not touched, and the tape is used up but still playing. */
  lemma LoadFails(t: Tape, m: Memory)
    requires t.playing
    ensures Next(t, m).r == (if CutShort(t.rest) then -1 else 0)
    ensures CutShort(t.rest) ==>
      && OnlyStored(m, Next(t, m).mem, 0xFF, if |t.rest| < 3 then [] else t.rest[3..])
      && Next(t, m).tape.playing && Next(t, m).tape.rest == []
  {
    hide Store, Le16, Pred16, FromLe16, OnlyStored;
    if |t.rest| < 3 {
      StoreEmpty(m, FASTTAP_ADDRESS_DATA);
      StatusAndData(m, []);
    } else {
      HeaderLength(t.rest[0], t.rest[1]);
      StatusAndData(m, t.rest[3..]);
    }
  }

  /** The length a Spectrum reads is one less than that of the saved data, except for empty data:
      then the field wraps to 65535. */
  lemma ReportedLength(data: seq<uint8>)
    requires |data| < 0x10000
    ensures FromLe16(Le16(Pred16(|data|))[0], Le16(Pred16(|data|))[1]) == |data| - 1 <==> data != []
  {
    hide FromLe16, Le16;
    Le16RoundTrip(Pred16(|data|));
  }

  /** n loads in a row. */
  function Loads(t: Tape, m: Memory, n: nat): Loaded {
    if n == 0 then Loaded(t, m, 0)
    else
      var before := Loads(t, m, n - 1);
      Next(before.tape, before.mem)
  }

  lemma {:induction false} TapeSplit(blocks: seq<seq<uint8>>, n: nat)
    requires n <= |blocks|
    ensures TapeOf(blocks) == TapeOf(blocks[..n]) + TapeOf(blocks[n..])
  {
    hide SaveBlock;
    if n == |blocks| {
      assert blocks[..n] == blocks && blocks[n..] == [];
    } else if n > 0 {
      assert blocks[..n][1..] == blocks[1..][..n - 1];
      assert blocks[1..][n - 1..] == blocks[n..];
      TapeSplit(blocks[1..], n - 1);
      Assoc(SaveBlock(blocks[0]), TapeOf(blocks[1..][..n - 1]), TapeOf(blocks[n..]));
    }
  }

  lemma {:induction false} TapeNotEmpty(blocks: seq<seq<uint8>>)
    requires blocks != []
    ensures |TapeOf(blocks)| > 0
  {
  }

  /** Saving blocks and loading them again: load number n presents block n, and the tape stops
      playing exactly after the last one. */
  lemma {:induction false} SaveLoadRoundTrip(blocks: seq<seq<uint8>>, m: Memory, n: nat)
    requires forall b :: b in blocks ==> |b| < 0x10000
    requires 0 < n <= |blocks|
    ensures var l := Loads(Tape(true, TapeOf(blocks), |TapeOf(blocks)|, 0), m, n);
            && l.r == 0 && Presents(l.mem, blocks[n - 1])
            && l.tape.rest == TapeOf(blocks[n..]) && l.tape.read == |TapeOf(blocks[..n])|
            && l.tape.size == |TapeOf(blocks)|
            && (l.tape.playing <==> n < |blocks|)
  {
    hide Next, Presents, SaveBlock;
    var t := Tape(true, TapeOf(blocks), |TapeOf(blocks)|, 0);
    var before := Loads(t, m, n - 1);
    if n == 1 {
      assert blocks[0..] == blocks && TapeOf(blocks[..0]) == [];
    } else {
      SaveLoadRoundTrip(blocks, m, n - 1);
    }
    assert blocks[n - 1..][1..] == blocks[n..];
    LoadsSavedBlock(before.tape, before.mem, blocks[n - 1], TapeOf(blocks[n..]));
    assert blocks[..n] == blocks[..n - 1] + [blocks[n - 1]];
    TapeSnoc(blocks[..n - 1], blocks[n - 1]);
    TapeSplit(blocks, n);
    if n < |blocks| {
      TapeNotEmpty(blocks[n..]);
    } else {
      assert blocks[n..] == [];
    }
  }

  /** Every further load fails and leaves the memory alone. */
  lemma {:induction false} NothingAfterTheLast(blocks: seq<seq<uint8>>, m: Memory, n: nat)
    requires blocks != [] && forall b :: b in blocks ==> |b| < 0x10000
    requires n > |blocks|
    ensures var t := Tape(true, TapeOf(blocks), |TapeOf(blocks)|, 0);
            Loads(t, m, n).r == -1 && Loads(t, m, n).mem == Loads(t, m, |blocks|).mem
            && !Loads(t, m, n).tape.playing
  {
    hide NextBlock, TapeOf;
    if n == |blocks| + 1 {
      SaveLoadRoundTrip(blocks, m, |blocks|);
    } else {
      NothingAfterTheLast(blocks, m, n - 1);
    }
  }
}
