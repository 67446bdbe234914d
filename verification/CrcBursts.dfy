/** Which transmission errors the frame check sequence is certain to detect. */
module CrcBursts {
  import opened Crc

  // ---------- Error detection ----------

  lemma SpreadLinear(a: bv16, b: bv16)
    ensures Spread(Xor(a, b)) == Xor(Spread(a), Spread(b))
  {
  }

  lemma HighPartLinear(a: bv16, b: bv16)
    ensures HighPart(Xor(a, b)) == Xor(HighPart(a), HighPart(b))
  {
  }

  lemma UpLinear(a: bv16, b: bv16)
    ensures Up(Xor(a, b)) == Xor(Up(a), Up(b))
  {
  }

  lemma DownLinear(a: bv16, b: bv16)
    ensures Down(Xor(a, b)) == Xor(Down(a), Down(b))
  {
  }

  lemma AsideLinear(a: bv16, b: bv16)
    ensures Aside(Xor(a, b)) == Xor(Aside(a), Aside(b))
  {
  }

  lemma XorAssoc(a: bv16, b: bv16, c: bv16)
    ensures Xor(Xor(a, b), c) == Xor(a, Xor(b, c))
  {
  }

  lemma XorComm(a: bv16, b: bv16)
    ensures Xor(a, b) == Xor(b, a)
  {
  }

  lemma XorSwap(a: bv16, b: bv16, c: bv16, d: bv16)
    ensures Xor(Xor(a, b), Xor(c, d)) == Xor(Xor(a, c), Xor(b, d))
  {
    hide Xor;
    XorAssoc(a, b, Xor(c, d));
    XorAssoc(b, c, d);
    XorComm(b, c);
    XorAssoc(c, b, d);
    XorAssoc(a, c, Xor(b, d));
  }

  lemma MixLinear(a: bv16, b: bv16, c: bv16, d: bv16)
    ensures Mix(Xor(a, b), Xor(c, d)) == Xor(Mix(a, c), Mix(b, d))
  {
    hide Xor, Up, Down, Aside;
    UpLinear(c, d);
    DownLinear(c, d);
    AsideLinear(c, d);
    XorSwap(Up(c), Up(d), a, b);
    XorSwap(Xor(Up(c), a), Xor(Up(d), b), Down(c), Down(d));
    XorSwap(Xor(Xor(Up(c), a), Down(c)), Xor(Xor(Up(d), b), Down(d)), Aside(c), Aside(d));
  }

  lemma NetLinear(a: bv16, b: bv16)
    ensures ByteNet(Xor(a, b)) == Xor(ByteNet(a), ByteNet(b))
  {
    hide Xor, HighPart, Spread, Mix;
    SpreadLinear(a, b);
    HighPartLinear(a, b);
    MixLinear(HighPart(a), HighPart(b), Spread(a), Spread(b));
  }

  lemma WideXor(d1: bv8, d2: bv8)
    ensures Wide(d1 ^ d2) == Xor(Wide(d1), Wide(d2))
  {
  }

  lemma XorRegroup(c1: bv16, c2: bv16, d1: bv8, d2: bv8)
    ensures Xor(Feed(c1, d1), Feed(c2, d2)) == Feed(Xor(c1, c2), d1 ^ d2)
  {
    hide Xor, Wide;
    XorSwap(c1, Wide(d1), c2, Wide(d2));
    WideXor(d1, d2);
  }

  /** One more byte into each of two checks: the difference evolves on its own. */
  lemma DifferenceStep(c1: bv16, c2: bv16, d1: bv8, d2: bv8)
    ensures Xor(Update(c1, d1), Update(c2, d2)) == Update(Xor(c1, c2), d1 ^ d2)
  {
    hide Update, ByteNet, Xor, Feed;
    UpdateIsNet(c1, d1);
    UpdateIsNet(c2, d2);
    UpdateIsNet(Xor(c1, c2), d1 ^ d2);
    NetLinear(Feed(c1, d1), Feed(c2, d2));
    XorRegroup(c1, c2, d1, d2);
  }

  lemma XorSelf(a: bv16)
    ensures Xor(a, a) == 0
  {
  }

  lemma XorNone(a: bv16)
    ensures Xor(a, 0) == a == Xor(0, a)
  {
  }

  lemma XorZero(a: bv16, b: bv16)
    ensures Xor(a, b) == 0 <==> a == b
  {
    hide Xor;
    XorAssoc(a, b, b);
    XorSelf(a);
    XorSelf(b);
    XorNone(a);
    XorNone(b);
  }

  /** No data byte can bring two different check states together. */
  lemma UpdateInjective(c1: bv16, c2: bv16, d: bv8)
    requires Update(c1, d) == Update(c2, d)
    ensures c1 == c2
  {
    hide Update, ByteNet;
    UpdateIsNet(c1, d);
    UpdateIsNet(c2, d);
    NetLinear(Feed(c1, d), Feed(c2, d));
    NetInjective(Xor(Feed(c1, d), Feed(c2, d)));
  }

  lemma {:induction false} ResidueInjective(c1: bv16, c2: bv16, s: seq<bv8>)
    requires Residue(c1, s) == Residue(c2, s)
    ensures c1 == c2
    decreases |s|
  {
    hide Update;
    if s != [] {
      ResidueInjective(Update(c1, s[0]), Update(c2, s[0]), s[1..]);
      UpdateInjective(c1, c2, s[0]);
    }
  }

  /** The errors of three consecutive bytes lie within 16 consecutive bits in the order of
      transmission: from bit k of the first byte on, up to bit k - 1 of the third. */
  predicate Burst(k: bv8, e0: bv8, e1: bv8, e2: bv8) {
    k < 8 && e0 & ((1 << k) - 1) == 0 && e2 >> k == 0
  }

  function ThreeNets(e0: bv8, e1: bv8, e2: bv8): bv16 {
    ByteNet(Feed(ByteNet(Feed(ByteNet(Feed(0, e0)), e1)), e2))
  }

  lemma UpdateThree(e0: bv8, e1: bv8, e2: bv8)
    ensures Update(Update(Update(0, e0), e1), e2) == ThreeNets(e0, e1, e2)
  {
    hide Update, ByteNet, Feed;
    UpdateIsNet(0, e0);
    UpdateIsNet(Update(0, e0), e1);
    UpdateIsNet(Update(Update(0, e0), e1), e2);
  }

  lemma BurstNet(k: bv8, e0: bv8, e1: bv8, e2: bv8)
    requires Burst(k, e0, e1, e2)
    requires ThreeNets(e0, e1, e2) == 0
    ensures e0 == e1 == e2 == 0
  {
  }

  lemma Equal(a: bv8, b: bv8)
    ensures a ^ b == 0 <==> a == b
  {
  }

  lemma ResidueThree(crc: bv16, s: seq<bv8>)
    requires |s| == 3
    ensures Residue(crc, s) == Update(Update(Update(crc, s[0]), s[1]), s[2])
  {
    hide Update;
    ResidueTwo(Update(crc, s[0]), s[1], s[2]);
    assert s[1..] == [s[1], s[2]];
  }

  /** If three bytes with a burst between them leave the check in the same state, they are the same. */
  lemma BurstSeparates(crc: bv16, k: bv8, a: seq<bv8>, b: seq<bv8>)
    requires |a| == |b| == 3
    requires Burst(k, a[0] ^ b[0], a[1] ^ b[1], a[2] ^ b[2])
    requires Residue(crc, a) == Residue(crc, b)
    ensures a == b
  {
    hide Update, Burst, Xor, ThreeNets;
    ResidueThree(crc, a);
    ResidueThree(crc, b);
    var a1, b1 := Update(crc, a[0]), Update(crc, b[0]);
    var a2, b2 := Update(a1, a[1]), Update(b1, b[1]);
    DifferenceStep(crc, crc, a[0], b[0]);
    DifferenceStep(a1, b1, a[1], b[1]);
    DifferenceStep(a2, b2, a[2], b[2]);
    XorZero(crc, crc);
    XorZero(Update(a2, a[2]), Update(b2, b[2]));
    UpdateThree(a[0] ^ b[0], a[1] ^ b[1], a[2] ^ b[2]);
    BurstNet(k, a[0] ^ b[0], a[1] ^ b[1], a[2] ^ b[2]);
    Equal(a[0], b[0]);
    Equal(a[1], b[1]);
    Equal(a[2], b[2]);
  }

  /** r and r' differ only by a burst that starts in byte i; bytes past the end count as equal. */
  ghost predicate DifferByBurst(r: seq<bv8>, r': seq<bv8>, i: nat, k: bv8) {
    && |r| == |r'| && i < |r|
    && (forall j :: 0 <= j < |r| && (j < i || i + 2 < j) ==> r[j] == r'[j])
    && Burst(k, r[i] ^ r'[i],
             if i + 1 < |r| then r[i + 1] ^ r'[i + 1] else 0,
             if i + 2 < |r| then r[i + 2] ^ r'[i + 2] else 0)
  }

  /** Two padding bytes make room for a burst that starts in the last bytes. */
  lemma Padded(r: seq<bv8>, r': seq<bv8>, i: nat, k: bv8, p: seq<bv8>, p': seq<bv8>)
    requires DifferByBurst(r, r', i, k) && p == r + [0, 0] && p' == r' + [0, 0]
    ensures p[..i] == p'[..i] && p[i + 3..] == p'[i + 3..]
    ensures Burst(k, p[i] ^ p'[i], p[i + 1] ^ p'[i + 1], p[i + 2] ^ p'[i + 2])
  {
    hide Burst;
    Equal(0, 0);
  }

  lemma Unpadded(r: seq<bv8>, r': seq<bv8>, i: nat)
    requires var p, p' := r + [0, 0], r' + [0, 0];
             |p| == |p'| && i + 3 <= |p| && p[..i] == p'[..i] && p[i..i + 3] == p'[i..i + 3] && p[i + 3..] == p'[i + 3..]
    ensures r == r'
  {
    var p, p' := r + [0, 0], r' + [0, 0];
    assert p == p[..i] + p[i..i + 3] + p[i + 3..];
    assert p' == p'[..i] + p'[i..i + 3] + p'[i + 3..];
    assert r == p[..|r|] && r' == p'[..|r|];
  }

  lemma ThreeParts(crc: bv16, p: seq<bv8>, i: nat)
    requires i + 3 <= |p|
    ensures Residue(crc, p) == Residue(Residue(Residue(crc, p[..i]), p[i..i + 3]), p[i + 3..])
  {
    hide Update;
    assert p == p[..i] + p[i..i + 3] + p[i + 3..];
    ResidueConcat(crc, p[..i] + p[i..i + 3], p[i + 3..]);
    ResidueConcat(crc, p[..i], p[i..i + 3]);
  }

  /** A burst of errors no longer than 16 bits always changes the residue of a message. */
  lemma BurstChangesResidue(crc: bv16, r: seq<bv8>, r': seq<bv8>, i: nat, k: bv8)
    requires DifferByBurst(r, r', i, k)
    ensures Residue(crc, r) == Residue(crc, r') <==> r == r'
  {
    if Residue(crc, r) == Residue(crc, r') {
      hide Update, Burst;
      var p, p' := r + [0, 0], r' + [0, 0];
      Padded(r, r', i, k, p, p');
      hide DifferByBurst;
      ThreeParts(crc, p, i);
      ThreeParts(crc, p', i);
      ResidueConcat(crc, r, [0, 0]);
      ResidueConcat(crc, r', [0, 0]);
      var s, a, a' := Residue(crc, p[..i]), p[i..i + 3], p'[i..i + 3];
      ResidueInjective(Residue(s, a), Residue(s, a'), p[i + 3..]);
      BurstSeparates(s, k, a, a');
      Unpadded(r, r', i);
    }
  }
}
