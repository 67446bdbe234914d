/**
 The frame check sequence of the HDLC framing: CRC-16 with the polynomial of Appendix C.2 of
 RFC 1662, least significant bit first. The code starts from 0xFFFF but, unlike the RFC, does
 not complement the result, so the residue of a good frame is 0.
 */
module Crc {
  const CRC_INIT: bv16 := 0xFFFF

  function LowByte(crc: bv16): bv8 {
    (crc & 0xff) as bv8
  }

  function HighByte(crc: bv16): bv8 {
    (crc >> 8) as bv8
  }

  function Nibbles(d: bv8): bv8 {
    d ^ (d << 4)
  }

  function Combine(crc: bv16, e: bv8): bv16 {
    (((e as bv16) << 8) | ((crc >> 8) & 0xff)) ^ ((e >> 4) as bv16) ^ ((e as bv16) << 3)
  }

  /** hdlc_encoder__update_crc and hdlc_decoder__update_crc: a byte at a time, by nibbles. */
  function Update(crc: bv16, data: bv8): bv16 {
    Combine(crc, Nibbles(data ^ LowByte(crc)))
  }

  function Residue(crc: bv16, s: seq<bv8>): bv16
    decreases |s|
  {
    if s == [] then crc else Residue(Update(crc, s[0]), s[1..])
  }

  // ---------- The code's definition: one bit at a time ----------

  function ShiftBit(crc: bv16): bv16 {
    if crc & 1 == 1 then (crc >> 1) ^ 0x8408 else crc >> 1
  }

  function ShiftNibble(crc: bv16): bv16 {
    ShiftBit(ShiftBit(ShiftBit(ShiftBit(crc))))
  }

  function Xor(a: bv16, b: bv16): bv16 {
    a ^ b
  }

  function Wide(data: bv8): bv16 {
    data as bv16
  }

  function Feed(crc: bv16, data: bv8): bv16 {
    Xor(crc, Wide(data))
  }

  function ShiftByte(crc: bv16, data: bv8): bv16 {
    ShiftNibble(ShiftNibble(Feed(crc, data)))
  }

  function ShiftMessage(crc: bv16, s: seq<bv8>): bv16
    decreases |s|
  {
    if s == [] then crc else ShiftMessage(ShiftByte(crc, s[0]), s[1..])
  }

  // ---------- Both as exclusive-or networks without branches ----------

  function Feedback(b: bv16): bv16 {
    (b << 15) ^ (b << 10) ^ (b << 3)
  }

  function BitNet(c: bv16): bv16 {
    (c >> 1) ^ Feedback(c & 1)
  }

  function NibbleNet(c: bv16): bv16 {
    var n := c & 0xf;
    (c >> 4) ^ (n << 12) ^ (n << 7) ^ n
  }

  function HighPart(t: bv16): bv16 {
    t >> 8
  }

  function Spread(t: bv16): bv16 {
    var x := t & 0xff;
    (x ^ (x << 4)) & 0xff
  }

  function Up(e: bv16): bv16 {
    e << 8
  }

  function Down(e: bv16): bv16 {
    e >> 4
  }

  function Aside(e: bv16): bv16 {
    e << 3
  }

  function Mix(h: bv16, e: bv16): bv16 {
    Xor(Xor(Xor(Up(e), h), Down(e)), Aside(e))
  }

  function ByteNet(t: bv16): bv16 {
    Mix(HighPart(t), Spread(t))
  }

  lemma LowBit(c: bv16)
    ensures c & 1 == 0 || c & 1 == 1
  {
  }

  lemma ShiftBitIsNet(c: bv16)
    ensures ShiftBit(c) == BitNet(c)
  {
    LowBit(c);
    assert Feedback(1) == 0x8408 && Feedback(0) == 0;
    hide Feedback;
    if c & 1 != 1 {
      assert (c >> 1) ^ 0 == c >> 1;
    }
  }

  lemma FourBitNets(c: bv16)
    ensures BitNet(BitNet(BitNet(BitNet(c)))) == NibbleNet(c)
  {
  }

  lemma ShiftNibbleIsNet(c: bv16)
    ensures ShiftNibble(c) == NibbleNet(c)
  {
    hide ShiftBit, BitNet, NibbleNet;
    ShiftBitIsNet(c);
    ShiftBitIsNet(BitNet(c));
    ShiftBitIsNet(BitNet(BitNet(c)));
    ShiftBitIsNet(BitNet(BitNet(BitNet(c))));
    FourBitNets(c);
  }

  lemma TwoNibbleNets(t: bv16)
    ensures NibbleNet(NibbleNet(t)) == ByteNet(t)
  {
  }

  lemma CombineIsMix(crc: bv16, e: bv8)
    ensures Combine(crc, e) == Mix(HighPart(crc), e as bv16)
  {
  }

  lemma SpreadByte(crc: bv16, x: bv8, data: bv8)
    requires x == data ^ LowByte(crc)
    ensures Nibbles(x) as bv16 == Spread(Feed(crc, data))
  {
  }

  lemma DataIsLow(crc: bv16, data: bv8)
    ensures HighPart(Feed(crc, data)) == HighPart(crc)
  {
  }

  lemma UpdateIsNet(crc: bv16, data: bv8)
    ensures Update(crc, data) == ByteNet(Feed(crc, data))
  {
    hide Combine, Mix, Spread, HighPart, Nibbles, LowByte, Feed;
    var x := data ^ LowByte(crc);
    CombineIsMix(crc, Nibbles(x));
    SpreadByte(crc, x, data);
    DataIsLow(crc, data);
  }

  /** The nibble trick is eight shifts of the polynomial. */
  lemma UpdateIsEightShifts(crc: bv16, data: bv8)
    ensures Update(crc, data) == ShiftByte(crc, data)
  {
    hide Update, ByteNet, NibbleNet, ShiftNibble, Feed;
    var t := Feed(crc, data);
    UpdateIsNet(crc, data);
    ShiftNibbleIsNet(t);
    ShiftNibbleIsNet(NibbleNet(t));
    TwoNibbleNets(t);
  }

  /** Lifted to whole messages. */
  lemma {:induction false} ResidueIsBitSerial(crc: bv16, s: seq<bv8>)
    ensures Residue(crc, s) == ShiftMessage(crc, s)
    decreases |s|
  {
    hide Update, ShiftByte;
    if s != [] {
      UpdateIsEightShifts(crc, s[0]);
      ResidueIsBitSerial(ShiftByte(crc, s[0]), s[1..]);
    }
  }

  // ---------- Residues ----------

  lemma {:induction false} ResidueConcat(crc: bv16, a: seq<bv8>, b: seq<bv8>)
    ensures Residue(crc, a + b) == Residue(Residue(crc, a), b)
    decreases |a|
  {
    hide Update;
    if a == [] {
      assert a + b == b;
    } else {
      assert (a + b)[1..] == a[1..] + b;
      ResidueConcat(Update(crc, a[0]), a[1..], b);
    }
  }

  lemma ResidueTwo(crc: bv16, a: bv8, b: bv8)
    ensures Residue(crc, [a, b]) == Update(Update(crc, a), b)
  {
    hide Update;
    assert [a, b][1..] == [b];
    assert Residue(Update(crc, a), [b]) == Residue(Update(Update(crc, a), b), [b][1..]);
  }

  /** The check sequence as it is sent: low byte first. */
  function CheckBytes(crc: bv16): seq<bv8> {
    [LowByte(crc), HighByte(crc)]
  }

  lemma NetInjective(t: bv16)
    ensures ByteNet(t) == 0 <==> t == 0
  {
  }

  lemma NetOfHigh(t: bv16)
    ensures ByteNet(t) <= 0xff <==> t & 0xff == 0
    ensures t & 0xff == 0 ==> ByteNet(t) == HighPart(t)
  {
  }

  lemma FeedCancels(crc: bv16, a: bv8)
    ensures Feed(crc, a) & 0xff == 0 <==> a == LowByte(crc)
    ensures Feed(crc, a) == 0 <==> crc == Wide(a)
  {
  }

  lemma WideIsLow(crc: bv16, b: bv8)
    ensures Wide(b) <= 0xff
    ensures HighPart(crc) == Wide(b) <==> b == HighByte(crc)
  {
  }

  lemma TwoBytesCancel(crc: bv16, a: bv8, b: bv8)
    ensures ByteNet(Feed(ByteNet(Feed(crc, a)), b)) == 0
       <==> a == LowByte(crc) && b == HighByte(crc)
  {
    hide ByteNet, Feed, HighPart, HighByte, LowByte, Wide;
    var u := Feed(crc, a);
    NetInjective(Feed(ByteNet(u), b));
    FeedCancels(ByteNet(u), b);
    NetOfHigh(u);
    FeedCancels(crc, a);
    WideIsLow(crc, b);
    DataIsLow(crc, a);
  }

  /** Two bytes bring the residue to 0 exactly if they are the check sequence. */
  lemma ChecksOut(crc: bv16, a: bv8, b: bv8)
    ensures Residue(crc, [a, b]) == 0 <==> [a, b] == CheckBytes(crc)
  {
    hide Update, ByteNet, LowByte, HighByte, Feed;
    ResidueTwo(crc, a, b);
    UpdateIsNet(crc, a);
    UpdateIsNet(Update(crc, a), b);
    TwoBytesCancel(crc, a, b);
    assert [a, b] == CheckBytes(crc) <==> a == LowByte(crc) && b == HighByte(crc);
  }
}
