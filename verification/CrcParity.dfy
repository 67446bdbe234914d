/** The polynomial of the frame check sequence has an even number of terms, so the check also keeps
    the parity of what it has taken in: an odd number of flipped bits never goes unnoticed. */
module CrcParity {
  import opened Crc
  import opened CrcBursts

  // ---------- Counting bits ----------

  function Bit(b: bv8, mask: bv8): nat {
    if b & mask == 0 then 0 else 1
  }

  /** The number of ones in a byte. */
  function BitCount(b: bv8): nat {
    Bit(b, 0x01) + Bit(b, 0x02) + Bit(b, 0x04) + Bit(b, 0x08)
    + Bit(b, 0x10) + Bit(b, 0x20) + Bit(b, 0x40) + Bit(b, 0x80)
  }

  function Differing(a: bv8, b: bv8): nat {
    BitCount(a ^ b)
  }

  /** How many bits are different in two messages of the same length. */
  function FlippedBits(r: seq<bv8>, r': seq<bv8>): nat
    requires |r| == |r'|
  {
    if |r| == 0 then 0 else Differing(r[0], r'[0]) + FlippedBits(r[1..], r'[1..])
  }

  // ---------- Parity by folding ----------

  function Shift8(t: bv16): bv16 {
    t >> 8
  }

  function Fold8(t: bv16): bv16 {
    Xor(t, Shift8(t))
  }

  function Shift4(t: bv16): bv16 {
    t >> 4
  }

  function Fold4(t: bv16): bv16 {
    Xor(t, Shift4(t))
  }

  function Shift2(t: bv16): bv16 {
    t >> 2
  }

  function Fold2(t: bv16): bv16 {
    Xor(t, Shift2(t))
  }

  function Shift1(t: bv16): bv16 {
    t >> 1
  }

  function Fold1(t: bv16): bv16 {
    Xor(t, Shift1(t))
  }

  predicate Low(t: bv16) {
    t & 1 == 1
  }

  /** Is the number of ones odd? */
  predicate Odd(t: bv16) {
    Low(Fold1(Fold2(Fold4(Fold8(t)))))
  }

  lemma Shift8Linear(a: bv16, b: bv16)
    ensures Shift8(Xor(a, b)) == Xor(Shift8(a), Shift8(b))
  {
  }

  lemma Fold8Linear(a: bv16, b: bv16)
    ensures Fold8(Xor(a, b)) == Xor(Fold8(a), Fold8(b))
  {
    hide Xor, Shift8;
    Shift8Linear(a, b);
    XorSwap(a, b, Shift8(a), Shift8(b));
  }

  lemma Shift4Linear(a: bv16, b: bv16)
    ensures Shift4(Xor(a, b)) == Xor(Shift4(a), Shift4(b))
  {
  }

  lemma Fold4Linear(a: bv16, b: bv16)
    ensures Fold4(Xor(a, b)) == Xor(Fold4(a), Fold4(b))
  {
    hide Xor, Shift4;
    Shift4Linear(a, b);
    XorSwap(a, b, Shift4(a), Shift4(b));
  }

  lemma Shift2Linear(a: bv16, b: bv16)
    ensures Shift2(Xor(a, b)) == Xor(Shift2(a), Shift2(b))
  {
  }

  lemma Fold2Linear(a: bv16, b: bv16)
    ensures Fold2(Xor(a, b)) == Xor(Fold2(a), Fold2(b))
  {
    hide Xor, Shift2;
    Shift2Linear(a, b);
    XorSwap(a, b, Shift2(a), Shift2(b));
  }

  lemma Shift1Linear(a: bv16, b: bv16)
    ensures Shift1(Xor(a, b)) == Xor(Shift1(a), Shift1(b))
  {
  }

  lemma Fold1Linear(a: bv16, b: bv16)
    ensures Fold1(Xor(a, b)) == Xor(Fold1(a), Fold1(b))
  {
    hide Xor, Shift1;
    Shift1Linear(a, b);
    XorSwap(a, b, Shift1(a), Shift1(b));
  }

  lemma LowOfXor(a: bv16, b: bv16)
    ensures Low(Xor(a, b)) <==> Low(a) != Low(b)
  {
  }

  lemma OddOfXor(a: bv16, b: bv16)
    ensures Odd(Xor(a, b)) <==> Odd(a) != Odd(b)
  {
    hide Xor, Fold8, Fold4, Fold2, Fold1, Low;
    Fold8Linear(a, b);
    Fold4Linear(Fold8(a), Fold8(b));
    Fold2Linear(Fold4(Fold8(a)), Fold4(Fold8(b)));
    Fold1Linear(Fold2(Fold4(Fold8(a))), Fold2(Fold4(Fold8(b))));
    LowOfXor(Fold1(Fold2(Fold4(Fold8(a)))), Fold1(Fold2(Fold4(Fold8(b)))));
  }

  lemma OddZero()
    ensures !Odd(0)
  {
  }

  predicate OddNat(n: nat) {
    n % 2 == 1
  }

  lemma OddSum(sum: nat, a: nat, b: nat)
    requires sum == a + b
    ensures OddNat(sum) <==> OddNat(a) != OddNat(b)
  {
  }

  lemma OddByte(b: bv8)
    ensures Odd(Wide(b)) <==> OddNat(BitCount(b))
  {
  }

  // ---------- The check keeps the parity ----------

  function LowPart(t: bv16): bv16 {
    t & 0xff
  }

  lemma OddUp(e: bv16)
    requires e <= 0xff
    ensures Odd(Up(e)) <==> Odd(e)
  {
  }

  lemma OddAside(e: bv16)
    requires e <= 0xff
    ensures Odd(Aside(e)) <==> Odd(e)
  {
  }

  lemma SpreadIsByte(t: bv16)
    ensures Spread(t) <= 0xff && HighPart(t) <= 0xff
    ensures Spread(t) == Spread(LowPart(t)) && LowPart(t) <= 0xff
  {
  }

  lemma OddDown(x: bv16)
    requires x <= 0xff
    ensures Odd(Down(Spread(x))) <==> Odd(x)
  {
  }

  lemma TwoParts(t: bv16)
    ensures t == Xor(Up(HighPart(t)), LowPart(t))
  {
  }

  lemma OddNet(t: bv16)
    ensures Odd(ByteNet(t)) <==> Odd(t)
  {
    hide Odd, Xor, Up, Down, Aside, Spread, HighPart, LowPart;
    var h, e, x := HighPart(t), Spread(t), LowPart(t);
    SpreadIsByte(t);
    TwoParts(t);
    OddOfXor(Up(h), x);
    OddUp(h);
    OddUp(e);
    OddAside(e);
    OddDown(x);
    OddOfXor(Up(e), h);
    OddOfXor(Xor(Up(e), h), Down(e));
    OddOfXor(Xor(Xor(Up(e), h), Down(e)), Aside(e));
  }

  lemma OddUpdate(crc: bv16, data: bv8)
    ensures Odd(Update(crc, data)) <==> Odd(crc) != OddNat(BitCount(data))
  {
    hide Update, ByteNet, Xor, Odd, Wide, BitCount;
    UpdateIsNet(crc, data);
    OddNet(Feed(crc, data));
    OddOfXor(crc, Wide(data));
    OddByte(data);
  }

  lemma OddStep(c: bv16, c': bv16, d: bv8, d': bv8)
    ensures Odd(Xor(Update(c, d), Update(c', d'))) <==> Odd(Xor(c, c')) != OddNat(Differing(d, d'))
  {
    hide Update, Xor, Odd, OddNat, BitCount;
    DifferenceStep(c, c', d, d');
    OddUpdate(Xor(c, c'), d ^ d');
  }

  lemma FlippedCons(r: seq<bv8>, r': seq<bv8>)
    requires |r| == |r'| > 0
    ensures FlippedBits(r, r') == Differing(r[0], r'[0]) + FlippedBits(r[1..], r'[1..])
  {
    hide Differing;
  }

  /** The difference of two checks is odd exactly if their messages have made it so. */
  lemma {:induction false} OddDifference(c: bv16, c': bv16, r: seq<bv8>, r': seq<bv8>)
    requires |r| == |r'|
    ensures Odd(Xor(Residue(c, r), Residue(c', r'))) <==> Odd(Xor(c, c')) != OddNat(FlippedBits(r, r'))
    decreases |r|
  {
    if r != [] {
      hide Update, Xor, Odd, OddNat, FlippedBits, Differing;
      OddDifference(Update(c, r[0]), Update(c', r'[0]), r[1..], r'[1..]);
      OddStep(c, c', r[0], r'[0]);
      FlippedCons(r, r');
      OddSum(FlippedBits(r, r'), Differing(r[0], r'[0]), FlippedBits(r[1..], r'[1..]));
    }
  }

  /** An odd number of flipped bits, wherever they are, always changes the residue of a message. */
  lemma OddFlipsChangeResidue(crc: bv16, r: seq<bv8>, r': seq<bv8>)
    requires |r| == |r'| && FlippedBits(r, r') % 2 == 1
    ensures Residue(crc, r) != Residue(crc, r')
  {
    hide Xor, Odd, Residue, FlippedBits;
    OddDifference(crc, crc, r, r');
    XorZero(crc, crc);
    XorZero(Residue(crc, r), Residue(crc, r'));
    OddZero();
  }
}
