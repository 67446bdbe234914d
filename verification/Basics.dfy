/** The 8-bit unsigned integer that most of the modelled components work on, and what several of
    them need about sequences. */
module Basics {
  newtype uint8 = x: int | 0 <= x < 256

  datatype Option<T> = None | Some(value: T)

  // ---------- Numbers of 16 bits ----------

  /** A 16-bit number, low byte first, in two's complement; larger numbers are truncated. */
  function Le16(v: int): (r: seq<uint8>)
    ensures |r| == 2
  {
    [(v % 256) as uint8, (v / 256 % 256) as uint8]
  }

  function FromLe16(lo: uint8, hi: uint8): (v: nat)
    ensures v < 0x10000
  {
    lo as nat + 256 * (hi as nat)
  }

  /** A signed 16-bit number from an int, as the conversion in C truncates it. */
  function ToInt16(v: int): (r: int)
    ensures -0x8000 <= r < 0x8000
  {
    var u := v % 0x10000;
    if u < 0x8000 then u else u - 0x10000
  }

  lemma Le16RoundTrip(v: int)
    ensures FromLe16(Le16(v)[0], Le16(v)[1]) == v % 0x10000
  {
  }

  lemma Le16InNumbers(v: int)
    ensures Le16(v)[0] as int + 256 * Le16(v)[1] as int == v % 65536
  {
  }

  lemma Le16Short(n: nat)
    requires n < 65536
    ensures Le16(n) == [(n % 256) as uint8, (n / 256) as uint8]
  {
  }

  lemma ToInt16Same(v: int)
    ensures -0x8000 <= v < 0x8000 ==> ToInt16(v % 0x10000) == v
  {
  }

  lemma Le16Onto(lo: uint8, hi: uint8)
    ensures Le16(FromLe16(lo, hi)) == [lo, hi]
  {
  }

  lemma Le16Signed(v: nat)
    requires v < 0x10000
    ensures Le16(ToInt16(v)) == Le16(v)
  {
    if v >= 0x8000 {
      assert ToInt16(v) == v - 0x10000;
      assert (v - 0x10000) % 256 == v % 256 && (v - 0x10000) / 256 == v / 256 - 256;
    }
  }

  /** A 16-bit counter counts mod 65536. */
  lemma Sum16(a: nat, b: nat)
    ensures (a % 0x10000 + b) % 0x10000 == (a + b) % 0x10000
  {
  }

  // ---------- Sequences ----------

  /** n copies of one value. */
  function Repeat<T>(v: T, n: nat): (r: seq<T>)
    ensures |r| == n
    ensures forall i :: 0 <= i < n ==> r[i] == v
  {
    seq(n, _ => v)
  }

  lemma RepeatSnoc<T>(v: T, n: nat)
    ensures Repeat(v, n + 1) == Repeat(v, n) + [v]
  {
  }

  lemma SliceSnoc<T>(s: seq<T>, a: nat, b: nat)
    requires a <= b < |s|
    ensures s[a..b] + [s[b]] == s[a..b + 1]
  {
  }

  lemma Assoc<T>(a: seq<T>, b: seq<T>, c: seq<T>)
    ensures a + (b + c) == a + b + c
  {
  }

  lemma SplitAt<T>(s: seq<T>, n: nat)
    requires n <= |s|
    ensures s == s[..n] + s[n..]
  {
  }

  /** The concatenation of all elements. */
  function Flatten<T>(pieces: seq<seq<T>>): seq<T> {
    if pieces == [] then [] else pieces[0] + Flatten(pieces[1..])
  }

  lemma FlattenCons<T>(first: seq<T>, pieces: seq<seq<T>>)
    ensures Flatten([first] + pieces) == first + Flatten(pieces)
  {
    assert ([first] + pieces)[1..] == pieces;
  }

  lemma {:induction false} FlattenSnoc<T>(pieces: seq<seq<T>>, last: seq<T>)
    ensures Flatten(pieces + [last]) == Flatten(pieces) + last
  {
    if pieces == [] {
      assert Flatten([last][1..]) == [];
      assert [] + [last] == [last] && last + [] == last;
    } else {
      assert (pieces + [last])[1..] == pieces[1..] + [last];
      FlattenSnoc(pieces[1..], last);
    }
  }

  lemma FlattenNext<T>(pieces: seq<seq<T>>, i: nat)
    requires i < |pieces|
    ensures Flatten(pieces[..i + 1]) == Flatten(pieces[..i]) + pieces[i]
  {
    assert pieces[..i + 1] == pieces[..i] + [pieces[i]];
    FlattenSnoc(pieces[..i], pieces[i]);
  }

  lemma FlattenNone<T>(pieces: seq<seq<T>>)
    ensures Flatten(pieces[..0]) == []
  {
  }
}
