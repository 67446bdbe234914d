/** Exclusive or of bytes, in terms of their numeric values. */
module Xor {
  import opened Basics

  function Half(n: nat): nat {
    n / 2
  }

  /** The exclusive or of the lowest bits. */
  function LowXor(a: nat, b: nat): nat {
    (a + b) % 2
  }

  /** Exclusive or of two numbers of k bits: bit by bit, from the lowest. */
  function XorBits(a: nat, b: nat, k: nat): nat {
    if k == 0 then 0 else LowXor(a, b) + 2 * XorBits(Half(a), Half(b), k - 1)
  }

  function Pow2(k: nat): nat {
    if k == 0 then 1 else 2 * Pow2(k - 1)
  }

  lemma {:induction false} XorBitsBound(a: nat, b: nat, k: nat)
    ensures XorBits(a, b, k) < Pow2(k)
  {
    if k > 0 {
      XorBitsBound(Half(a), Half(b), k - 1);
    }
  }

  lemma XorParts(a: nat, b: nat, k: nat)
    requires k > 0
    ensures XorBits(a, b, k) == LowXor(a, b) + 2 * XorBits(Half(a), Half(b), k - 1)
    ensures Half(XorBits(a, b, k)) == XorBits(Half(a), Half(b), k - 1)
  {
  }

  lemma DropEven(x: nat, h: nat, c: nat)
    ensures LowXor(x + 2 * h, c) == LowXor(x, c)
  {
  }

  lemma LowXorComm(a: nat, b: nat)
    ensures LowXor(a, b) == LowXor(b, a)
  {
  }

  lemma LowXorThree(a: nat, b: nat, c: nat)
    ensures LowXor(LowXor(a, b), c) == LowXor(LowXor(b, c), a)
  {
  }

  lemma LowXorAssoc(a: nat, b: nat, c: nat, k: nat)
    requires k > 0
    ensures LowXor(XorBits(a, b, k), c) == LowXor(a, XorBits(b, c, k))
  {
    hide XorBits, Half, LowXor;
    XorParts(a, b, k);
    XorParts(b, c, k);
    DropEven(LowXor(a, b), XorBits(Half(a), Half(b), k - 1), c);
    DropEven(LowXor(b, c), XorBits(Half(b), Half(c), k - 1), a);
    LowXorThree(a, b, c);
    LowXorComm(LowXor(b, c) + 2 * XorBits(Half(b), Half(c), k - 1), a);
  }

  lemma {:induction false} XorBitsAssoc(a: nat, b: nat, c: nat, k: nat)
    ensures XorBits(XorBits(a, b, k), c, k) == XorBits(a, XorBits(b, c, k), k)
  {
    if k > 0 {
      LowXorAssoc(a, b, c, k);
      hide XorBits, Half, LowXor;
      XorBitsAssoc(Half(a), Half(b), Half(c), k - 1);
      XorParts(a, b, k);
      XorParts(b, c, k);
      XorParts(XorBits(a, b, k), c, k);
      XorParts(a, XorBits(b, c, k), k);
    }
  }

  lemma {:induction false} XorBitsSelf(a: nat, k: nat)
    ensures XorBits(a, a, k) == 0
  {
    if k > 0 {
      XorBitsSelf(Half(a), k - 1);
    }
  }

  lemma {:induction false} XorBitsZero(a: nat, k: nat)
    requires a < Pow2(k)
    ensures XorBits(0, a, k) == a == XorBits(a, 0, k)
  {
    if k > 0 {
      XorBitsZero(Half(a), k - 1);
    }
  }

  function Xor8(a: uint8, b: uint8): uint8 {
    XorBitsBound(a as nat, b as nat, 8);
    assert Pow2(8) == 256;
    XorBits(a as nat, b as nat, 8) as uint8
  }

  lemma Xor8Assoc(a: uint8, b: uint8, c: uint8)
    ensures Xor8(Xor8(a, b), c) == Xor8(a, Xor8(b, c))
  {
    hide XorBits;
    XorBitsAssoc(a as nat, b as nat, c as nat, 8);
  }

  lemma Xor8Self(a: uint8)
    ensures Xor8(a, a) == 0
  {
    hide XorBits;
    XorBitsSelf(a as nat, 8);
  }

  lemma Xor8Zero(a: uint8)
    ensures Xor8(0, a) == a == Xor8(a, 0)
  {
    hide XorBits;
    assert Pow2(8) == 256;
    XorBitsZero(a as nat, 8);
  }

  function BitAt(a: nat, n: nat): nat
    decreases n
  {
    if n == 0 then a % 2 else BitAt(Half(a), n - 1)
  }

  lemma SumMod2(a: nat, b: nat)
    ensures (a % 2 + b % 2) % 2 == (a + b) % 2
  {
  }

  lemma LowBit(a: nat, b: nat, k: nat)
    requires k > 0
    ensures XorBits(a, b, k) % 2 == (a + b) % 2
  {
    XorParts(a, b, k);
    hide XorBits, Half;
  }

  /** A bit of the exclusive or is set exactly if the bits of the two numbers are different. */
  lemma {:induction false} XorBitAt(a: nat, b: nat, k: nat, n: nat)
    requires n < k
    ensures BitAt(XorBits(a, b, k), n) == (BitAt(a, n) + BitAt(b, n)) % 2
    decreases k
  {
    hide XorBits, Half;
    if n == 0 {
      LowBit(a, b, k);
      SumMod2(a, b);
    } else {
      XorParts(a, b, k);
      XorBitAt(Half(a), Half(b), k - 1, n - 1);
    }
  }

  lemma Xor8Bits(a: uint8, b: uint8, n: nat)
    requires n < 8
    ensures BitAt(Xor8(a, b) as nat, n) == (BitAt(a as nat, n) + BitAt(b as nat, n)) % 2
  {
    hide XorBits, BitAt;
    XorBitAt(a as nat, b as nat, 8, n);
  }
}
