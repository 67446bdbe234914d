/** The byte ring buffer of the joystick firmware, joystick/ringbuffer.c. */
module RingBuffer {
  import opened Basics

  /** The last n elements of s. */
  function LastOf<T>(s: seq<T>, n: nat): (r: seq<T>)
    ensures |r| == if |s| <= n then |s| else n
  {
    if |s| <= n then s else s[|s| - n..]
  }

  function ToUint16(v: int): nat {
    v % 0x10000
  }

  // ---------- Arithmetic of the slots ----------

  /** The slot n places after h in a ring of size + 1 slots. */
  function Advance(h: nat, n: nat, size: nat): (r: nat)
    requires h <= size
    ensures r <= size
    decreases n
  {
    if n == 0 then h else Advance(if h == size then 0 else h + 1, n - 1, size)
  }

  lemma {:induction false} AdvanceNext(h: nat, n: nat, size: nat)
    requires h <= size
    ensures Advance(h, n + 1, size) == var r := Advance(h, n, size); if r == size then 0 else r + 1
    decreases n
  {
    if n > 0 {
      AdvanceNext(if h == size then 0 else h + 1, n - 1, size);
    }
  }

  lemma {:induction false} AdvanceOnce(h: nat, n: nat, size: nat)
    requires h <= size && n <= size
    ensures Advance(h, n, size) == if h + n <= size then h + n else h + n - size - 1
    decreases n
  {
    if n > 0 {
      AdvanceOnce(if h == size then 0 else h + 1, n - 1, size);
    }
  }

  // ---------- The last elements of a sequence ----------

  lemma LastOfAll<T>(s: seq<T>, t: seq<T>)
    requires t == []
    ensures LastOf(s + t, |s|) == s
  {
    assert s + t == s;
  }

  lemma LastOfSnoc<T>(s: seq<T>, data: seq<T>, j: nat, n: nat)
    requires |s| == n > 0 && j < |data|
    ensures LastOf(s + data[..j + 1], n) == LastOf(s + data[..j], n)[1..] + [data[j]]
  {
    assert s + data[..j + 1] == s + data[..j] + [data[j]];
  }

  lemma LastOfTail<T>(s: seq<T>, n: nat)
    requires |s| > n
    ensures LastOf(s, n + 1)[1..] == LastOf(s, n)
  {
  }

  lemma LastOfSuffix<T>(gap: seq<T>, s: seq<T>, n: nat)
    requires |s| >= n
    ensures LastOf(gap + s, n) == LastOf(s, n)
  {
  }

  lemma SplitSlots<T>(slots: seq<T>, was: seq<T>, data: seq<T>)
    requires |was| <= |slots| && was == slots[|slots| - |was|..]
    ensures slots + data == slots[..|slots| - |was|] + (was + data)
  {
  }

  lemma LastOfOverflow<T>(slots: seq<T>, was: seq<T>, data: seq<T>, size: nat)
    requires |slots| == size + 1 && |was| <= size && was == slots[size + 1 - |was|..]
    requires |was| + |data| > size
    ensures LastOf(slots + data, size + 1)[1..] == LastOf(was + data, size)
  {
    hide LastOf;
    SplitSlots(slots, was, data);
    LastOfTail(slots + data, size);
    LastOfSuffix(slots[..size + 1 - |was|], was + data, size);
  }

  lemma LastOfNoOverflow<T>(slots: seq<T>, was: seq<T>, data: seq<T>, size: nat)
    requires |slots| == size + 1 && |was| <= size && was == slots[size + 1 - |was|..]
    requires |was| + |data| <= size
    ensures LastOf(slots + data, size + 1)[size + 1 - |was| - |data|..] == was + data == LastOf(was + data, size)
  {
    SplitSlots(slots, was, data);
    assert (slots + data)[size + 1 - |was|..] == was + data;
  }

  /** The last n of the last n and more: what overwriting forgets stays forgotten. */
  lemma LastOfLast<T>(a: seq<T>, b: seq<T>, n: nat)
    ensures LastOf(LastOf(a, n) + b, n) == LastOf(a + b, n)
  {
    if |a| > n {
      var gap := a[..|a| - n];
      assert a + b == gap + (LastOf(a, n) + b);
    }
  }

  // ---------- The buffer ----------

  class Ring {
    const buf: array<uint8>
    const size: nat
    var head: nat
    var tail: nat

    /** One slot more than the capacity tells a full buffer from an empty one. */
    ghost predicate Valid()
      reads this
    {
      size < 0x10000 && buf.Length > size && head <= size && tail <= size
    }

    ghost function Used(): (n: nat)
      requires Valid()
      reads this
      ensures n <= size
    {
      if head >= tail then head - tail else head + size + 1 - tail
    }

    /** The bytes between tail and head, oldest first. */
    ghost function Contents(): (s: seq<uint8>)
      requires Valid()
      reads this, buf
      ensures |s| == Used()
    {
      if head >= tail then buf[tail..head] else buf[tail..size + 1] + buf[..head]
    }

    /** All slots in the order of writing; the contents are the last ones. */
    ghost function Slots(): (s: seq<uint8>)
      requires head <= size < buf.Length
      reads this`head, buf
      ensures |s| == size + 1
    {
      buf[head..size + 1] + buf[..head]
    }

    lemma ContentsAreLast()
      requires Valid()
      ensures Contents() == Slots()[size + 1 - Used()..]
    {
    }

    lemma OldestByte()
      requires Valid() && |Contents()| > 0
      ensures Contents()[0] == buf[tail]
    {
    }

    constructor (buffer: array<uint8>, size: nat)
      requires size < 0x10000 && buffer.Length > size
      ensures Valid() && buf == buffer && this.size == size
      ensures head == tail == 0 && Contents() == []
    {
      buf, this.size := buffer, size;
      head, tail := 0, 0;
    }

    method Reset()
      requires Valid()
      modifies this
      ensures Valid() && Contents() == []
    {
      head, tail := 0, 0;
    }

    method Size() returns (n: nat)
      requires Valid()
      ensures n == |Contents()|
    {
      var delta := head - tail;
      if delta < 0 {
        return size + delta + 1;
      }
      return delta;
    }

    method Avail() returns (n: nat)
      requires Valid()
      ensures n == size - |Contents()|
    {
      var used := Size();
      return size - used;
    }

    /** One byte out: the tail moves on. */
    method Take() returns (x: uint8)
      requires Valid() && Contents() != []
      modifies this`tail
      ensures Valid()
      ensures x == old(Contents())[0] && Contents() == old(Contents())[1..]
    {
      hide Contents, Slots;
      OldestByte();
      ContentsAreLast();
      x := buf[tail];
      tail := ToUint16(tail + 1);
      if tail > size {
        tail := 0;
      }
      ContentsAreLast();
    }

    /** Takes the oldest bytes, at most maxsize of them. */
    method Get(dest: array<uint8>, maxsize: nat) returns (count: nat)
      requires Valid() && dest != buf && dest.Length >= maxsize
      modifies this`tail, dest
      ensures Valid()
      ensures count == if maxsize < |old(Contents())| then maxsize else |old(Contents())|
      ensures dest[..count] == old(Contents())[..count] && dest[count..] == old(dest[count..])
      ensures Contents() == old(Contents())[count..]
    {
      hide Contents;
      ghost var was := Contents();
      var used := Size();
      var room := maxsize;
      count := 0;
      while used > 0 && room > 0
        invariant Valid() && count + used == |was| && count + room == maxsize
        invariant Contents() == was[count..]
        invariant dest[..count] == was[..count] && dest[count..] == old(dest[..])[count..]
        decreases used
      {
        var x := Take();
        dest[count] := x;
        assert was[..count + 1] == was[..count] + [x];
        count := count + 1;
        used := used - 1;
        room := room - 1;
      }
    }

    /** One byte in: the head moves on, whatever the tail is. */
    method Put(x: uint8)
      requires Valid()
      modifies this`head, buf
      ensures Valid() && head == (if old(head) == size then 0 else old(head) + 1)
      ensures Slots() == old(Slots())[1..] + [x]
    {
      buf[head] := x;
      head := ToUint16(head + 1);
      if head > size {
        head := 0;
      }
    }

    /** The loop of append. */
    method PutAll(data: seq<uint8>)
      requires Valid()
      modifies this`head, buf
      ensures Valid() && head == Advance(old(head), |data|, size)
      ensures Slots() == LastOf(old(Slots()) + data, size + 1)
    {
      hide Slots, LastOf, Advance;
      assert Advance(head, 0, size) == head by { AdvanceOnce(head, 0, size); }
      ghost var s := Slots();
      LastOfAll(s, data[..0]);
      for j := 0 to |data|
        invariant Valid() && head == Advance(old(head), j, size)
        invariant Slots() == LastOf(s + data[..j], size + 1)
      {
        AdvanceNext(old(head), j, size);
        LastOfSnoc(s, data, j, size + 1);
        Put(data[j]);
      }
      assert data[..|data|] == data;
    }

    /** Does the 16-bit arithmetic of append lose the tail? Only a buffer of 32767 to 65534
        bytes can, when it overflows and the head ends in its last slot. */
    ghost predicate TailLost(length: nat)
      requires Valid()
      reads this, buf
    {
      && size - Used() < length
      && 0x7FFF <= size < 0xFFFF
      && Advance(head, length, size) == size
    }

    /** The tail of a full buffer is the slot after the head, computed in 16 bits. */
    method PushTail()
      requires size < 0x10000 && head <= size
      modifies this`tail
      ensures tail == if head < size then head + 1 else if 0x7FFF <= size < 0xFFFF then size + 1 else 0
    {
      var newtail := ToInt16(head + 1);
      if newtail > size {
        newtail := 0;
      }
      tail := ToUint16(newtail);
    }

    /** Appends, discarding the oldest bytes if there is no room: the contents are then the last
        `size` bytes of what was there and the data. The buffer is left with its tail one past
        its last slot exactly if TailLost says so. */
    method Append(data: seq<uint8>)
      requires Valid()
      modifies this, buf
      ensures !old(TailLost(|data|)) ==> Valid() && Contents() == LastOf(old(Contents()) + data, size)
      ensures old(TailLost(|data|)) ==> tail == size + 1
      ensures head == Advance(old(head), |data|, size) <= size < buf.Length
      ensures Slots() == LastOf(old(Slots()) + data, size + 1)
    {
      hide LastOf, Contents, Slots, Advance;
      ghost var was, slots := Contents(), Slots();
      var avail := Avail();
      var overflow := |data| > avail;
      ContentsAreLast();
      PutAll(data);
      if overflow {
        PushTail();
        if tail <= size {
          assert Used() == size;
          ContentsAreLast();
          LastOfOverflow(slots, was, data, size);
        }
      } else {
        AdvanceOnce(old(head), |data|, size);
        ContentsAreLast();
        LastOfNoOverflow(slots, was, data, size);
      }
    }
  }

  // ---------- Whole runs ----------

  datatype Op = AppendOp(data: seq<uint8>) | GetOp(maxsize: nat)

  /** The overwrite-oldest queue: its contents and what was taken out of it. */
  datatype Queue = Queue(contents: seq<uint8>, taken: seq<uint8>)

  function Apply(q: Queue, op: Op, size: nat): Queue {
    match op
    case AppendOp(data) => q.(contents := LastOf(q.contents + data, size))
    case GetOp(maxsize) =>
      var n := if maxsize < |q.contents| then maxsize else |q.contents|;
      Queue(q.contents[n..], q.taken + q.contents[..n])
  }

  function ApplyAll(q: Queue, ops: seq<Op>, size: nat): Queue {
    if ops == [] then q else Apply(ApplyAll(q, ops[..|ops| - 1], size), ops[|ops| - 1], size)
  }

  function Appended(ops: seq<Op>): seq<uint8> {
    if ops == [] then []
    else Appended(ops[..|ops| - 1]) + (match ops[|ops| - 1] case AppendOp(data) => data case GetOp(_) => [])
  }

  lemma SuffixAppend<T>(all: seq<T>, k: nat, data: seq<T>, size: nat)
    requires k <= |all|
    ensures var c := LastOf(LastOf(all, k) + data, size);
            |c| <= |all + data| && c == LastOf(all + data, |c|)
  {
    var gap := all[..|all| - k];
    assert all + data == gap + (LastOf(all, k) + data);
  }

  /** Over any run: never more than `size` bytes are held, and they are the latest bytes appended. */
  lemma {:induction false} HoldsLatest(ops: seq<Op>, size: nat)
    ensures var q := ApplyAll(Queue([], []), ops, size);
            |q.contents| <= size && |q.contents| <= |Appended(ops)|
            && q.contents == LastOf(Appended(ops), |q.contents|)
  {
    if ops != [] {
      var before := ops[..|ops| - 1];
      HoldsLatest(before, size);
      var q, all := ApplyAll(Queue([], []), before, size), Appended(before);
      match ops[|ops| - 1]
      case AppendOp(data) =>
        SuffixAppend(all, |q.contents|, data, size);
      case GetOp(maxsize) =>
    }
  }

  /** No append of the run finds too little room. */
  predicate NoOverflow(ops: seq<Op>, size: nat) {
    ops == [] ||
    var before := ops[..|ops| - 1];
    && NoOverflow(before, size)
    && (match ops[|ops| - 1]
        case AppendOp(data) => |ApplyAll(Queue([], []), before, size).contents| + |data| <= size
        case GetOp(_) => true)
  }

  lemma SameFront<T>(a: seq<T>, b: seq<T>, c: seq<T>)
    ensures a + c == b + c <==> a == b
  {
    if a + c == b + c {
      assert |a| == |b|;
      assert a == (a + c)[..|a|] == (b + c)[..|b|] == b;
    }
  }

  /** A run that never overflows is a FIFO: what was taken and what is held make up what was
      appended, in order. With an overflow bytes are missing, so the converse holds as well. */
  lemma {:induction false} FifoIffNoOverflow(ops: seq<Op>, size: nat)
    ensures var q := ApplyAll(Queue([], []), ops, size);
            |q.taken| + |q.contents| <= |Appended(ops)|
            && (NoOverflow(ops, size) <==> q.taken + q.contents == Appended(ops))
  {
    if ops != [] {
      var before := ops[..|ops| - 1];
      FifoIffNoOverflow(before, size);
      var q, all := ApplyAll(Queue([], []), before, size), Appended(before);
      match ops[|ops| - 1]
      case AppendOp(data) =>
        if |q.contents| + |data| <= size {
          SameFront(q.taken + q.contents, all, data);
          Assoc(q.taken, q.contents, data);
        } else {
          assert |q.taken + LastOf(q.contents + data, size)| < |all + data|;
        }
      case GetOp(maxsize) =>
        var n := if maxsize < |q.contents| then maxsize else |q.contents|;
        SplitAt(q.contents, n);
        Assoc(q.taken, q.contents[..n], q.contents[n..]);
        assert all + [] == all;
    }
  }

  lemma {:induction false} NoOverflowPrefix(ops: seq<Op>, size: nat, i: nat)
    requires NoOverflow(ops, size) && i <= |ops|
    ensures NoOverflow(ops[..i], size)
    decreases |ops|
  {
    if i == |ops| {
      assert ops[..i] == ops;
    } else {
      var before := ops[..|ops| - 1];
      NoOverflowPrefix(before, size, i);
      assert before[..i] == ops[..i];
    }
  }

  /** One call on the buffer, unless it loses the tail. */
  method DoOp(ring: Ring, op: Op) returns (got: seq<uint8>)
    requires ring.Valid()
    requires ring.size < 0x7FFF || ring.size == 0xFFFF
          || match op case AppendOp(data) => |ring.Contents()| + |data| <= ring.size case GetOp(_) => true
    modifies ring, ring.buf
    ensures ring.Valid()
    ensures Queue(ring.Contents(), got) == Apply(Queue(old(ring.Contents()), []), op, ring.size)
  {
    hide Ring.Contents, LastOf, Advance, Ring.Slots;
    got := [];
    match op
    case AppendOp(data) =>
      ring.Append(data);
    case GetOp(maxsize) =>
      var dest := new uint8[maxsize];
      var n := ring.Get(dest, maxsize);
      got := dest[..n];
  }

  /** What was taken before plays no part in an operation. */
  lemma ApplyTaken(q: Queue, op: Op, size: nat, taken: seq<uint8>)
    ensures Apply(Queue(q.contents, taken), op, size)
         == var r := Apply(Queue(q.contents, []), op, size); Queue(r.contents, taken + r.taken)
  {
    assert taken + [] == taken;
  }

  /** The buffer itself over any run that cannot lose the tail, because no append overflows or
      because of the size: it holds and gives what the queue does, so its contents are the latest
      bytes appended, and it is a FIFO exactly if no append overflowed. */
  method RunOps(buffer: array<uint8>, size: nat, ops: seq<Op>) returns (ring: Ring, taken: seq<uint8>)
    requires size < 0x10000 && buffer.Length > size
    requires size < 0x7FFF || size == 0xFFFF || NoOverflow(ops, size)
    modifies buffer
    ensures ring.Valid() && ring.buf == buffer && ring.size == size
    ensures Queue(ring.Contents(), taken) == ApplyAll(Queue([], []), ops, size)
    ensures ring.Contents() == LastOf(Appended(ops), |ring.Contents()|)
    ensures NoOverflow(ops, size) <==> taken + ring.Contents() == Appended(ops)
  {
    hide Ring.Contents, LastOf, Apply;
    ring := new Ring(buffer, size);
    taken := [];
    for i := 0 to |ops|
      invariant fresh(ring) && ring.Valid() && ring.buf == buffer && ring.size == size
      invariant Queue(ring.Contents(), taken) == ApplyAll(Queue([], []), ops[..i], size)
    {
      assert ops[..i + 1][..i] == ops[..i];
      if NoOverflow(ops, size) {
        NoOverflowPrefix(ops, size, i + 1);
      }
      ApplyTaken(ApplyAll(Queue([], []), ops[..i], size), ops[i], size, taken);
      var got := DoOp(ring, ops[i]);
      taken := taken + got;
    }
    assert ops[..|ops|] == ops;
    HoldsLatest(ops, size);
    FifoIffNoOverflow(ops, size);
  }

  /** Fill a buffer, take one byte and put one back: full again, one place further on. */
  method Shifted(size: nat) returns (ring: Ring)
    requires 0 < size < 0x10000
    ensures fresh(ring) && fresh(ring.buf)
    ensures ring.Valid() && ring.size == size && ring.head == 0 && ring.tail == 1
  {
    hide Ring.Contents, Ring.Slots, Repeat, Advance, LastOf;
    var buffer := new uint8[size + 1];
    var one := new uint8[1];
    ring := new Ring(buffer, size);
    AdvanceOnce(0, size, size);
    var full := Repeat(0, size);
    ring.Append(full);
    assert ring.Used() == size;
    var n := ring.Get(one, 1);
    assert ring.Used() == size - 1 && ring.tail == 1;
    AdvanceOnce(size, 1, size);
    ring.Append([0]);
  }

  /** The smallest buffer that can lose its tail, and calls of the interface after which it has:
      those of Shifted, and an append of as many bytes as it holds. */
  method LosesTail() returns (ring: Ring)
    ensures ring.size == 0x7FFF && ring.tail == ring.size + 1 && !ring.Valid()
  {
    hide Ring.Contents, Ring.Slots, Repeat, Advance, LastOf;
    ring := Shifted(0x7FFF);
    AdvanceOnce(0, 0x7FFF, 0x7FFF);
    ring.Append(Repeat(0, 0x7FFF));
  }
}
