/** Buffered programming of a NOR flash partition, esp32/main/flash_pgm.c. */
module FlashPgm {
  import opened Basics

  const FLASH_BLOCK_SIZE := 4096

  /** ALIGN in 32-bit arithmetic, to the block size. */
  function Align(x: nat): nat {
    (x + FLASH_BLOCK_SIZE - 1) % 0x1_0000_0000 / FLASH_BLOCK_SIZE * FLASH_BLOCK_SIZE
  }

  // ---------- The flash ----------

  function And(a: bv8, b: bv8): bv8 {
    a & b
  }

  /** NOR flash: writing can only clear bits. */
  function Nor(mem: seq<bv8>, offset: nat, data: seq<bv8>): (r: seq<bv8>)
    requires offset + |data| <= |mem|
    ensures |r| == |mem|
    ensures forall i :: 0 <= i < |mem| ==>
      r[i] == if offset <= i < offset + |data| then And(mem[i], data[i - offset]) else mem[i]
  {
    seq(|mem|, i requires 0 <= i < |mem| =>
      if offset <= i < offset + |data| then And(mem[i], data[i - offset]) else mem[i])
  }

  /** Erasing sets bits. */
  function Erased(mem: seq<bv8>, n: nat): (r: seq<bv8>)
    requires n <= |mem|
    ensures |r| == |mem| && r[n..] == mem[n..]
    ensures forall i :: 0 <= i < n ==> r[i] == 0xFF
  {
    seq(n, _ => 0xFF) + mem[n..]
  }

  lemma NorNothing(mem: seq<bv8>, offset: nat)
    requires offset <= |mem|
    ensures Nor(mem, offset, []) == mem
  {
  }

  lemma NorNext(mem: seq<bv8>, offset: nat, a: seq<bv8>, b: seq<bv8>)
    requires offset + |a| + |b| <= |mem|
    ensures Nor(Nor(mem, offset, a), offset + |a|, b) == Nor(mem, offset, a + b)
  {
    hide And;
    var l, r := Nor(Nor(mem, offset, a), offset + |a|, b), Nor(mem, offset, a + b);
    assert forall i :: 0 <= i < |mem| ==> l[i] == r[i];
  }

  class Partition {
    var mem: seq<bv8>

    constructor (mem: seq<bv8>)
      ensures this.mem == mem
    {
      this.mem := mem;
    }

    method EraseRange(length: nat)
      requires length <= |mem|
      modifies this
      ensures mem == Erased(old(mem), length)
    {
      mem := Erased(mem, length);
    }

    method Write(offset: nat, data: seq<bv8>)
      requires offset + |data| <= |mem|
      modifies this
      ensures mem == Nor(old(mem), offset, data)
    {
      mem := Nor(mem, offset, data);
    }
  }

  // ---------- The programmer ----------

  lemma AndZero(b: bv8)
    ensures And(b, 0) == 0
  {
  }

  class Handle {
    var partition: Partition
    var offset: nat
    var buffer: array?<bv8>
    var bufferpos: nat
    /** The flash when programming began, and every byte handed over since. */
    ghost var base: seq<bv8>
    ghost var data: seq<bv8>

    ghost predicate Valid()
      reads this, partition, buffer
    {
      && bufferpos < FLASH_BLOCK_SIZE && offset % FLASH_BLOCK_SIZE == 0
      && offset + bufferpos == |data| <= |base|
      && partition.mem == Nor(base, 0, data[..offset])
      && buffer != null && buffer.Length == FLASH_BLOCK_SIZE && buffer[..bufferpos] == data[offset..]
    }

    constructor (partition: Partition)
      ensures this.partition == partition && buffer == null && bufferpos == 0
    {
      this.partition, buffer, offset, bufferpos := partition, null, 0, 0;
    }

    /** flash_pgm__prepare_programming; `found` is null if there is no such partition. */
    method PrepareProgramming(found: Partition?, length: nat) returns (r: int)
      requires found != null ==> Align(length) <= |found.mem|
      modifies this, found
      ensures found == null ==> r == -1 && unchanged(this)
      ensures found != null ==> r == 0 && Valid() && partition == found && fresh(buffer)
      ensures found != null ==> base == found.mem == Erased(old(found.mem), Align(length)) && data == []
    {
      if found == null {
        return -1;
      }
      var aligned := Align(length);
      found.EraseRange(aligned);
      offset, partition := 0, found;
      buffer := new bv8[FLASH_BLOCK_SIZE];
      bufferpos := 0;
      base, data := found.mem, [];
      NorNothing(base, 0);
      return 0;
    }

    /** flash_pgm__program_buffer, for a full buffer or the last one. */
    method ProgramBuffer()
      requires offset + bufferpos == |data| <= |base| && partition.mem == Nor(base, 0, data[..offset])
      requires buffer != null && bufferpos <= buffer.Length && buffer[..bufferpos] == data[offset..]
      modifies this`offset, this`bufferpos, partition
      ensures bufferpos == 0 && offset == |data| && partition.mem == Nor(base, 0, data)
    {
      hide Nor;
      assert data == data[..offset] + data[offset..];
      NorNext(base, 0, data[..offset], data[offset..]);
      partition.Write(offset, buffer[..bufferpos]);
      offset := offset + bufferpos;
      bufferpos := 0;
    }

    method CopyIn(chunk: seq<bv8>)
      requires buffer != null && bufferpos + |chunk| <= buffer.Length
      modifies this`bufferpos, buffer
      ensures bufferpos == old(bufferpos) + |chunk| && buffer[..bufferpos] == old(buffer[..bufferpos]) + chunk
    {
      for i := 0 to |chunk|
        invariant bufferpos == old(bufferpos) && buffer[..bufferpos + i] == old(buffer[..bufferpos]) + chunk[..i]
      {
        buffer[bufferpos + i] := chunk[i];
      }
      bufferpos := bufferpos + |chunk|;
    }

    /** One round of the loop: as much as the buffer has room for, and the buffer out if full. */
    method LoadPiece(piece: seq<bv8>)
      requires Valid() && |data| + |piece| <= |base| && bufferpos + |piece| <= FLASH_BLOCK_SIZE
      modifies this, partition, buffer
      ensures Valid()
      ensures partition == old(partition) && buffer == old(buffer) && base == old(base)
      ensures data == old(data) + piece
    {
      hide Nor;
      ghost var was := data;
      CopyIn(piece);
      data := was + piece;
      assert data[..offset] == was[..offset] && data[offset..] == was[offset..] + piece;
      if bufferpos == FLASH_BLOCK_SIZE {
        ProgramBuffer();
        assert data[..offset] == data && data[offset..] == [];
      }
    }

    method ProgramChunk(chunk: seq<bv8>) returns (r: int)
      requires Valid() && |data| + |chunk| <= |base|
      modifies this, partition, buffer
      ensures Valid() && r == 0
      ensures partition == old(partition) && buffer == old(buffer) && base == old(base)
      ensures data == old(data) + chunk
    {
      hide Nor;
      var done := 0;
      while done < |chunk|
        invariant done <= |chunk| && Valid()
        invariant partition == old(partition) && buffer == old(buffer) && base == old(base)
        invariant data == old(data) + chunk[..done]
      {
        var remain := FLASH_BLOCK_SIZE - bufferpos;
        var toload := if remain < |chunk| - done then remain else |chunk| - done;
        assert chunk[..done + toload] == chunk[..done] + chunk[done..done + toload];
        LoadPiece(chunk[done..done + toload]);
        done := done + toload;
      }
      return 0;
    }

    /** flash_pgm__flush: all data is in the flash and the buffer is gone. */
    method Flush() returns (r: int)
      requires Valid()
      modifies this, partition
      ensures r == 0 && buffer == null && partition == old(partition)
      ensures base == old(base) && data == old(data)
      ensures partition.mem == Nor(base, 0, data)
    {
      if bufferpos > 0 {
        ProgramBuffer();
      } else {
        assert data[..offset] == data;
      }
      if buffer != null {
        buffer := null;
      }
      return 0;
    }

    /** flash_pgm__abort: whatever the state, the first sector reads as zero and the rest is left. */
    method Abort() returns (r: int)
      requires |partition.mem| >= FLASH_BLOCK_SIZE
      requires buffer != null ==> buffer.Length == FLASH_BLOCK_SIZE
      modifies this, partition, buffer
      ensures r == 0 && buffer == null && partition == old(partition)
      ensures |partition.mem| == |old(partition.mem)|
      ensures forall i :: 0 <= i < FLASH_BLOCK_SIZE ==> partition.mem[i] == 0
      ensures partition.mem[FLASH_BLOCK_SIZE..] == old(partition.mem)[FLASH_BLOCK_SIZE..]
    {
      if buffer == null {
        buffer := new bv8[FLASH_BLOCK_SIZE];
      }
      for i := 0 to FLASH_BLOCK_SIZE
        invariant buffer != null && buffer.Length == FLASH_BLOCK_SIZE && (buffer == old(buffer) || fresh(buffer))
        invariant partition == old(partition) && partition.mem == old(partition.mem)
        invariant forall k :: 0 <= k < i ==> buffer[k] == 0
      {
        buffer[i] := 0;
      }
      ghost var before := partition.mem;
      partition.Write(0, buffer[..]);
      forall i | 0 <= i < FLASH_BLOCK_SIZE ensures partition.mem[i] == 0 {
        AndZero(before[i]);
      }
      if buffer != null {
        buffer := null;
      }
      return 0;
    }
  }

  lemma AndFull(b: bv8)
    ensures And(0xFF, b) == b
  {
  }

  // ---------- A whole image ----------

  lemma {:induction false} FlattenConcat<T>(a: seq<seq<T>>, b: seq<seq<T>>)
    ensures Flatten(a + b) == Flatten(a) + Flatten(b)
  {
    if a == [] {
      assert a + b == b;
    } else {
      assert (a + b)[1..] == a[1..] + b;
      FlattenConcat(a[1..], b);
    }
  }

  lemma FlattenSize<T>(chunks: seq<seq<T>>, n: nat)
    requires n <= |chunks|
    ensures |Flatten(chunks[..n])| <= |Flatten(chunks)|
  {
    assert chunks == chunks[..n] + chunks[n..];
    FlattenConcat(chunks[..n], chunks[n..]);
  }

  /** An image no longer than the erased area is in the flash as it was given, the rest of the
      erased area is still erased and everything behind it is as before. */
  lemma ImageStored(before: seq<bv8>, erased: nat, image: seq<bv8>)
    requires |image| <= erased <= |before|
    ensures var after := Nor(Erased(before, erased), 0, image);
            && after[..|image|] == image
            && (forall i :: |image| <= i < erased ==> after[i] == 0xFF)
            && after[erased..] == before[erased..]
  {
    hide And;
    forall i | 0 <= i < |image| ensures And(0xFF, image[i]) == image[i] { AndFull(image[i]); }
  }

  lemma SameBehind<T>(s: seq<T>, t: seq<T>, n: nat)
    requires |s| == |t| && n <= |s| && s[n..] == t[n..]
    ensures forall i :: n <= i < |s| ==> s[i] == t[i]
  {
    forall i | n <= i < |s| ensures s[i] == t[i] {
      assert s[n..][i - n] == t[n..][i - n];
    }
  }

  /** The erased length covers a 32-bit length by less than a block more, exactly if rounding it up
      does not exceed 32 bits; if it does, nothing is erased. */
  lemma AlignCovers(length: nat)
    requires length < 0x1_0000_0000
    ensures Align(length) % 4096 == 0
    ensures length <= Align(length) <==> length <= 0xFFFF_F000
    ensures length <= 0xFFFF_F000 ==> Align(length) < length + 4096
    ensures length > 0xFFFF_F000 ==> Align(length) == 0
  {
    var up := length + 4095;
    assert up / 4096 * 4096 <= up < up / 4096 * 4096 + 4096;
    if length > 0xFFFF_F000 {
      assert up % 0x1_0000_0000 == up - 0x1_0000_0000 < 4096;
    }
  }

  /** prepare, any number of chunks, flush: an image no longer than announced is in the flash as it
      was given, up to the announced length the flash is erased behind it, and a block behind that
      length or further everything is as before. */
  method ProgramImage(partition: Partition, length: nat, chunks: seq<seq<bv8>>)
    requires Align(length) <= |partition.mem| && |Flatten(chunks)| <= |partition.mem|
    modifies partition
    ensures partition.mem == Nor(Erased(old(partition.mem), Align(length)), 0, Flatten(chunks))
    ensures |Flatten(chunks)| <= length <= 0xFFFF_F000 ==>
      && |partition.mem| == |old(partition.mem)| >= length
      && partition.mem[..|Flatten(chunks)|] == Flatten(chunks)
      && (forall i :: |Flatten(chunks)| <= i < length ==> partition.mem[i] == 0xFF)
      && (forall i :: length + 4096 <= i < |partition.mem| ==> partition.mem[i] == old(partition.mem)[i])
  {
    hide Nor, Erased, Align, Flatten;
    FlattenNone(chunks);
    var h := new Handle(partition);
    var r := h.PrepareProgramming(partition, length);
    for i := 0 to |chunks|
      invariant h.Valid() && h.partition == partition && fresh(h) && fresh(h.buffer)
      invariant h.base == Erased(old(partition.mem), Align(length)) && h.data == Flatten(chunks[..i])
    {
      FlattenNext(chunks, i);
      FlattenSize(chunks, i + 1);
      r := h.ProgramChunk(chunks[i]);
    }
    assert chunks[..|chunks|] == chunks;
    r := h.Flush();
    if |Flatten(chunks)| <= length <= 0xFFFF_F000 {
      AlignCovers(length);
      ImageStored(old(partition.mem), Align(length), Flatten(chunks));
      SameBehind(old(partition.mem), partition.mem, Align(length));
    }
  }

  lemma AndHasBits(a: bv8, b: bv8)
    ensures And(a, b) == b <==> a | b == a
  {
  }

  /** A longer image, as when the length that was erased is that of a compressed image: it is
      stored exactly if the old bytes behind the erased area have every bit that it needs. */
  lemma LongImageStored(before: seq<bv8>, erased: nat, image: seq<bv8>)
    requires erased <= |before| && |image| <= |before|
    ensures Nor(Erased(before, erased), 0, image)[..|image|] == image
       <==> forall i :: erased <= i < |image| ==> before[i] | image[i] == before[i]
  {
    hide And;
    var e := Erased(before, erased);
    var after := Nor(e, 0, image);
    forall i | 0 <= i < |image|
      ensures after[i] == image[i] <==> (i < erased || before[i] | image[i] == before[i])
    {
      AndFull(image[i]);
      AndHasBits(before[i], image[i]);
      assert erased <= i ==> e[i] == e[erased..][i - erased] == before[i];
    }
    assert after[..|image|] == image <==> forall i :: 0 <= i < |image| ==> after[i] == image[i];
  }
}
