/**
 TAP tapes: saving blocks from external RAM to a file (esp32/main/save.c, fpga.c) and fast
 loading them back into external RAM (esp32/main/fasttap.c, fasttap_tap.c).
 */
module Tap {
  import opened Basics
  import opened ExtRam
  import opened Xor

  type Memory = map<nat, uint8>

  const FASTTAP_ADDRESS_STATUS := 0x028000
  const FASTTAP_ADDRESS_LENLSB := 0x028001
  const FASTTAP_ADDRESS_DATA := 0x028003
  const CHUNK_SIZE := 128

  // ---------- Numbers and checksums ----------

  function Pred16(n: nat): nat {
    if n == 0 then 0xFFFF else n - 1
  }

  function Checksum(s: seq<uint8>): uint8 {
    if s == [] then 0 else Xor8(s[0], Checksum(s[1..]))
  }

  lemma {:induction false} ChecksumConcat(a: seq<uint8>, b: seq<uint8>)
    ensures Checksum(a + b) == Xor8(Checksum(a), Checksum(b))
  {
    hide Xor8;
    if a == [] {
      assert a + b == b;
      Xor8Zero(Checksum(b));
    } else {
      assert (a + b)[1..] == a[1..] + b;
      ChecksumConcat(a[1..], b);
      Xor8Assoc(a[0], Checksum(a[1..]), Checksum(b));
    }
  }

  lemma ChecksumNone()
    ensures Checksum([]) == 0
  {
  }

  lemma ChecksumOne(b: uint8)
    ensures Checksum([b]) == b
  {
    hide Xor8;
    assert [b][1..] == [];
    Xor8Zero(b);
  }

  // ---------- Tape files ----------

  /** A block of data as it is stored: length of data and checksum, data, checksum. */
  function SaveBlock(data: seq<uint8>): seq<uint8> {
    Le16(|data| + 1) + data + [Checksum(data)]
  }

  /** A stored block in numbers, for data of up to 65534 bytes. */
  lemma BlockInNumbers(data: seq<uint8>)
    requires |data| < 65535
    ensures SaveBlock(data)
         == [((|data| + 1) % 256) as uint8, ((|data| + 1) / 256) as uint8] + data + [Checksum(data)]
  {
    hide Checksum, Le16;
    Le16Short(|data| + 1);
  }

  function TapeOf(blocks: seq<seq<uint8>>): seq<uint8> {
    if blocks == [] then [] else SaveBlock(blocks[0]) + TapeOf(blocks[1..])
  }

  /** Data and checksum of a stored block cancel out. */
  lemma StoredBlockXorsToZero(data: seq<uint8>)
    ensures Checksum(SaveBlock(data)[2..]) == 0
  {
    hide Xor8;
    assert SaveBlock(data)[2..] == data + [Checksum(data)];
    ChecksumConcat(data, [Checksum(data)]);
    ChecksumOne(Checksum(data));
    Xor8Self(Checksum(data));
  }

  /** The shortest blocks: of one byte the checksum is that byte, of none it is 0. */
  lemma ShortBlocks(b: uint8)
    ensures SaveBlock([b]) == [2, 0, b, b] && SaveBlock([]) == [1, 0, 0]
  {
    ChecksumOne(b);
    ChecksumNone();
    Le16Short(1);
    Le16Short(2);
    hide Checksum, Le16;
    assert [(2 % 256) as uint8, (2 / 256) as uint8] == [2, 0];
    assert [(1 % 256) as uint8, (1 / 256) as uint8] == [1, 0];
  }

  lemma {:induction false} TapeSnoc(blocks: seq<seq<uint8>>, data: seq<uint8>)
    ensures TapeOf(blocks + [data]) == TapeOf(blocks) + SaveBlock(data)
  {
    hide SaveBlock;
    if blocks == [] {
      assert [] + [data] == [data];
      assert TapeOf([data][1..]) == [];
    } else {
      assert (blocks + [data])[1..] == blocks[1..] + [data];
      TapeSnoc(blocks[1..], data);
    }
  }

  /** n bytes of memory from address a on; an address never written reads as 0. */
  function Fetch(m: Memory, a: nat, n: nat): (s: seq<uint8>)
    ensures |s| == n
    ensures forall i :: 0 <= i < n ==> s[i] == if a + i in m then m[a + i] else 0
  {
    seq(n, i requires 0 <= i < n => if a + i in m then m[a + i] else 0)
  }

  lemma FetchNext(m: Memory, a: nat, n: nat, k: nat)
    ensures Fetch(m, a, n + k) == Fetch(m, a, n) + Fetch(m, a + n, k)
  {
  }

  lemma FetchStored(m: Memory, a: nat, s: seq<uint8>)
    ensures Fetch(Store(m, a, s), a, |s|) == s
  {
  }

  /** A store elsewhere is not seen. */
  lemma FetchElsewhere(m: Memory, a: nat, n: nat, b: nat, s: seq<uint8>)
    requires a + n <= b || b + |s| <= a
    ensures Fetch(Store(m, b, s), a, n) == Fetch(m, a, n)
  {
  }

  lemma NoBytes(m: Memory, a: nat, c: uint8)
    ensures Fetch(m, a, 0) == [] && Xor8(c, Checksum([])) == c
  {
    Xor8Zero(c);
  }

  method XorLoop(chunk: seq<uint8>) returns (c: uint8)
    ensures c == Checksum(chunk)
  {
    hide Checksum, Xor8;
    c := 0;
    ChecksumNone();
    assert chunk[..0] == [];
    for i := 0 to |chunk|
      invariant c == Checksum(chunk[..i])
    {
      assert chunk[..i + 1] == chunk[..i] + [chunk[i]];
      ChecksumConcat(chunk[..i], [chunk[i]]);
      ChecksumOne(chunk[i]);
      c := Xor8(c, chunk[i]);
    }
    assert chunk[..|chunk|] == chunk;
  }

  class Saver {
    /** tape_fd >= 0, and what the file behind it holds. */
    var open: bool
    var file: seq<uint8>

    constructor (file: seq<uint8>)
      ensures open && this.file == file
    {
      open, this.file := true, file;
    }

    /** fpga__read_extram_block_into_file, with a checksum. */
    method ReadExtramBlockIntoFile(ram: Ram<uint8>, address: nat, size: nat, checksum: uint8) returns (sum: uint8)
      modifies this`file
      ensures file == old(file) + Fetch(ram.mem, address, size)
      ensures sum == Xor8(checksum, Checksum(Fetch(ram.mem, address, size)))
    {
      hide Checksum, Fetch, Xor8;
      var left: nat, at: nat := size, address;
      sum := checksum;
      ghost var done: nat := 0;
      NoBytes(ram.mem, address, checksum);
      while left > 0
        invariant done + left == size && at == address + done
        invariant file == old(file) + Fetch(ram.mem, address, done)
        invariant sum == Xor8(checksum, Checksum(Fetch(ram.mem, address, done)))
      {
        var chunksize := if left < CHUNK_SIZE then left else CHUNK_SIZE;
        var chunk := Fetch(ram.mem, at, chunksize);
        var lchecksum := XorLoop(chunk);
        FetchNext(ram.mem, address, done, chunksize);
        ChecksumConcat(Fetch(ram.mem, address, done), chunk);
        Xor8Assoc(checksum, Checksum(Fetch(ram.mem, address, done)), lchecksum);
        sum := Xor8(sum, lchecksum);
        file := file + chunk;
        at := at + chunksize;
        left := left - chunksize;
        done := done + chunksize;
      }
    }

    /** save__append_from_extram: the length field holds datalen + 1 in 16 bits. */
    method AppendFromExtram(ram: Ram<uint8>, address: nat, datalen: nat) returns (r: int)
      requires datalen < 0x10000
      modifies this`file
      ensures r == if open then 0 else -1
      ensures file == if open then old(file) + SaveBlock(Fetch(ram.mem, address, datalen)) else old(file)
    {
      if !open {
        return -1;
      }
      hide Checksum, Fetch, Le16, Xor8;
      ghost var data := Fetch(ram.mem, address, datalen);
      file := file + Le16(datalen + 1);
      var checksum := ReadExtramBlockIntoFile(ram, address, datalen, 0);
      Xor8Zero(Checksum(data));
      file := file + [checksum];
      Assoc(old(file), Le16(datalen + 1) + data, [checksum]);
      Assoc(old(file), Le16(datalen + 1), data);
      return 0;
    }
  }

  function DataOf(m: Memory, regions: seq<(nat, nat)>): seq<seq<uint8>> {
    if regions == [] then []
    else DataOf(m, regions[..|regions| - 1]) + [Fetch(m, regions[|regions| - 1].0, regions[|regions| - 1].1)]
  }

  lemma TapeOfNone()
    ensures TapeOf([]) == []
  {
  }

  /** Saving regions of memory one after the other makes a tape of their contents. */
  method SaveAll(saver: Saver, ram: Ram<uint8>, regions: seq<(nat, nat)>)
    requires saver.open && saver.file == [] && forall r :: r in regions ==> r.1 < 0x10000
    modifies saver`file
    ensures saver.file == TapeOf(DataOf(ram.mem, regions))
  {
    hide SaveBlock, TapeOf, Fetch;
    TapeOfNone();
    for i := 0 to |regions|
      invariant saver.file == TapeOf(DataOf(ram.mem, regions[..i]))
    {
      assert regions[..i + 1][..i] == regions[..i];
      TapeSnoc(DataOf(ram.mem, regions[..i]), Fetch(ram.mem, regions[i].0, regions[i].1));
      var r := saver.AppendFromExtram(ram, regions[i].0, regions[i].1);
    }
    assert regions[..|regions|] == regions;
  }
}
