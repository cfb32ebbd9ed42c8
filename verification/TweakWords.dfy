/** The tweak step on 128-bit numbers, and alpha^1024 times the encrypted sector number 0 under the zero key. */
module TweakWords {
  import opened Bytes
  import opened Tweak
  import opened AesVectors
  import opened AlphaRing

  /** Byte `i` of a number, the least significant one first. */
  function Octet(x: bv128, i: nat): byte
    requires i < 16
  {
    ByteOf(
      if i == 0 then x else if i == 1 then x >> 8 else if i == 2 then x >> 16 else if i == 3 then x >> 24
      else if i == 4 then x >> 32 else if i == 5 then x >> 40 else if i == 6 then x >> 48 else if i == 7 then x >> 56
      else if i == 8 then x >> 64 else if i == 9 then x >> 72 else if i == 10 then x >> 80 else if i == 11 then x >> 88
      else if i == 12 then x >> 96 else if i == 13 then x >> 104 else if i == 14 then x >> 112 else x >> 120)
  }

  /** A block from its little-endian number, the form in which the tweak step is a shift. */
  function FromWord(x: bv128): Block {
    [Octet(x, 0), Octet(x, 1), Octet(x, 2), Octet(x, 3), Octet(x, 4), Octet(x, 5), Octet(x, 6), Octet(x, 7),
     Octet(x, 8), Octet(x, 9), Octet(x, 10), Octet(x, 11), Octet(x, 12), Octet(x, 13), Octet(x, 14), Octet(x, 15)]
  }

  function ShiftWord(x: bv128): bv128 {
    x << 1
  }

  function FoldWord(x: bv128): bv128 {
    x ^ 0x87
  }

  function DoubleWord(x: bv128): bv128 {
    if x >> 127 == 1 then FoldWord(ShiftWord(x)) else ShiftWord(x)
  }

  lemma LowOctetsOfShift(x: bv128)
    ensures Octet(ShiftWord(x), 0) == ShiftByte(Octet(x, 0), 0)
    ensures Octet(ShiftWord(x), 1) == ShiftByte(Octet(x, 1), Octet(x, 0))
    ensures Octet(ShiftWord(x), 2) == ShiftByte(Octet(x, 2), Octet(x, 1))
    ensures Octet(ShiftWord(x), 3) == ShiftByte(Octet(x, 3), Octet(x, 2))
    ensures Octet(ShiftWord(x), 4) == ShiftByte(Octet(x, 4), Octet(x, 3))
    ensures Octet(ShiftWord(x), 5) == ShiftByte(Octet(x, 5), Octet(x, 4))
    ensures Octet(ShiftWord(x), 6) == ShiftByte(Octet(x, 6), Octet(x, 5))
    ensures Octet(ShiftWord(x), 7) == ShiftByte(Octet(x, 7), Octet(x, 6))
  { }

  lemma HighOctetsOfShift(x: bv128)
    ensures Octet(ShiftWord(x), 8) == ShiftByte(Octet(x, 8), Octet(x, 7))
    ensures Octet(ShiftWord(x), 9) == ShiftByte(Octet(x, 9), Octet(x, 8))
    ensures Octet(ShiftWord(x), 10) == ShiftByte(Octet(x, 10), Octet(x, 9))
    ensures Octet(ShiftWord(x), 11) == ShiftByte(Octet(x, 11), Octet(x, 10))
    ensures Octet(ShiftWord(x), 12) == ShiftByte(Octet(x, 12), Octet(x, 11))
    ensures Octet(ShiftWord(x), 13) == ShiftByte(Octet(x, 13), Octet(x, 12))
    ensures Octet(ShiftWord(x), 14) == ShiftByte(Octet(x, 14), Octet(x, 13))
    ensures Octet(ShiftWord(x), 15) == ShiftByte(Octet(x, 15), Octet(x, 14))
  { }

  lemma LowOctetsOfFold(x: bv128)
    ensures Octet(FoldWord(x), 0) == Fold(Octet(x, 0))
    ensures Octet(FoldWord(x), 1) == Octet(x, 1)
    ensures Octet(FoldWord(x), 2) == Octet(x, 2)
    ensures Octet(FoldWord(x), 3) == Octet(x, 3)
    ensures Octet(FoldWord(x), 4) == Octet(x, 4)
    ensures Octet(FoldWord(x), 5) == Octet(x, 5)
    ensures Octet(FoldWord(x), 6) == Octet(x, 6)
    ensures Octet(FoldWord(x), 7) == Octet(x, 7)
  { }

  lemma HighOctetsOfFold(x: bv128)
    ensures Octet(FoldWord(x), 8) == Octet(x, 8)
    ensures Octet(FoldWord(x), 9) == Octet(x, 9)
    ensures Octet(FoldWord(x), 10) == Octet(x, 10)
    ensures Octet(FoldWord(x), 11) == Octet(x, 11)
    ensures Octet(FoldWord(x), 12) == Octet(x, 12)
    ensures Octet(FoldWord(x), 13) == Octet(x, 13)
    ensures Octet(FoldWord(x), 14) == Octet(x, 14)
    ensures Octet(FoldWord(x), 15) == Octet(x, 15)
  { }

  lemma TopBit(x: bv128)
    ensures HighBit(Octet(x, 15)) <==> x >> 127 == 1
  { }

  lemma ShiftOfWord(x: bv128)
    ensures Shift(FromWord(x)) == FromWord(ShiftWord(x))
  {
    hide Octet, ShiftByte, ShiftWord, Shift;
    LowOctetsOfShift(x);
    HighOctetsOfShift(x);
    var t := FromWord(x);
    ShiftAt(t, 0); ShiftAt(t, 1); ShiftAt(t, 2); ShiftAt(t, 3);
    ShiftAt(t, 4); ShiftAt(t, 5); ShiftAt(t, 6); ShiftAt(t, 7);
    ShiftAt(t, 8); ShiftAt(t, 9); ShiftAt(t, 10); ShiftAt(t, 11);
    ShiftAt(t, 12); ShiftAt(t, 13); ShiftAt(t, 14); ShiftAt(t, 15);
    SameSixteen(Shift(t), FromWord(ShiftWord(x)));
  }

  lemma FoldAt(t: Block, k: nat)
    requires k < BLOCK_LEN
    ensures FoldFirst(t, true)[k] == if k == 0 then Fold(t[0]) else t[k]
  {
    hide Fold;
  }

  lemma FoldOfWord(x: bv128)
    ensures FoldFirst(FromWord(x), true) == FromWord(FoldWord(x))
  {
    hide Octet, Fold, FoldWord, FoldFirst;
    LowOctetsOfFold(x);
    HighOctetsOfFold(x);
    var t := FromWord(x);
    FoldAt(t, 0); FoldAt(t, 1); FoldAt(t, 2); FoldAt(t, 3);
    FoldAt(t, 4); FoldAt(t, 5); FoldAt(t, 6); FoldAt(t, 7);
    FoldAt(t, 8); FoldAt(t, 9); FoldAt(t, 10); FoldAt(t, 11);
    FoldAt(t, 12); FoldAt(t, 13); FoldAt(t, 14); FoldAt(t, 15);
    SameSixteen(FoldFirst(FromWord(x), true), FromWord(FoldWord(x)));
  }

  lemma DoubleOfWord(x: bv128)
    ensures Double(FromWord(x)) == FromWord(DoubleWord(x))
  {
    hide Octet, HighBit, ShiftWord, FoldWord, Shift, FoldFirst;
    TopBit(x);
    ShiftOfWord(x);
    FoldOfWord(ShiftWord(x));
    NoFold(FromWord(ShiftWord(x)));
    LastOctet(x);
  }

  lemma NoFold(t: Block)
    ensures FoldFirst(t, false) == t
  { }

  lemma LastOctet(x: bv128)
    ensures FromWord(x)[15] == Octet(x, 15)
  {
    hide Octet;
  }

  // ---- many steps at once ----

  function TwoSteps(x: bv128): bv128 {
    DoubleWord(DoubleWord(x))
  }

  function FourSteps(x: bv128): bv128 {
    TwoSteps(TwoSteps(x))
  }

  function EightSteps(x: bv128): bv128 {
    FourSteps(FourSteps(x))
  }

  lemma AlphaOne(x: bv128)
    ensures Alpha(FromWord(x), 1) == FromWord(DoubleWord(x))
  {
    hide DoubleWord, Double, FromWord;
    DoubleOfWord(x);
    NoSteps(FromWord(x));
  }

  lemma AlphaTwo(x: bv128)
    ensures Alpha(FromWord(x), 2) == FromWord(TwoSteps(x))
  {
    hide Alpha, FromWord, DoubleWord;
    AlphaOne(x);
    AlphaOne(DoubleWord(x));
    AlphaAdds(FromWord(x), 1, 1);
  }

  lemma AlphaFour(x: bv128)
    ensures Alpha(FromWord(x), 4) == FromWord(FourSteps(x))
  {
    hide Alpha, FromWord, TwoSteps;
    AlphaTwo(x);
    AlphaTwo(TwoSteps(x));
    AlphaAdds(FromWord(x), 2, 2);
  }

  lemma AlphaEight(x: bv128)
    ensures Alpha(FromWord(x), 8) == FromWord(EightSteps(x))
  {
    hide Alpha, FromWord, FourSteps;
    AlphaFour(x);
    AlphaFour(FourSteps(x));
    AlphaAdds(FromWord(x), 4, 4);
  }

  lemma NoSteps(t: Block)
    ensures Alpha(t, 0) == t
  { }

  /** As many leaps of `m` steps as there are words after the first. */
  lemma {:induction false} AlphaOfLeaps(m: nat, words: seq<bv128>)
    requires words != []
    requires forall i :: 0 < i < |words| ==> Alpha(FromWord(words[i - 1]), m) == FromWord(words[i])
    ensures Alpha(FromWord(words[0]), m * (|words| - 1)) == FromWord(words[|words| - 1])
  {
    hide Alpha, FromWord;
    var n := |words| - 1;
    if n > 0 {
      AlphaOfLeaps(m, words[..n]);
      AlphaAdds(FromWord(words[0]), m * (n - 1), m);
      assert m * (n - 1) + m == m * n;
    } else {
      NoSteps(FromWord(words[0]));
    }
  }

  // ---- the tweak of sector 0 carried on for 1024 blocks ----

  lemma Leap1()
    ensures EightSteps(0x2e2b34ca59fa4c883b2c8aefd44be966) == 0x2b34ca59fa4c883b2c8aefd44be971ca
  { }

  lemma Leap2()
    ensures EightSteps(0x2b34ca59fa4c883b2c8aefd44be971ca) == 0x34ca59fa4c883b2c8aefd44be971df51
  { }

  lemma Leap3()
    ensures EightSteps(0x34ca59fa4c883b2c8aefd44be971df51) == 0xca59fa4c883b2c8aefd44be971df4b8c
  { }

  lemma Leap4()
    ensures EightSteps(0xca59fa4c883b2c8aefd44be971df4b8c) == 0x59fa4c883b2c8aefd44be971df4beb76
  { }

  lemma Leap5()
    ensures EightSteps(0x59fa4c883b2c8aefd44be971df4beb76) == 0xfa4c883b2c8aefd44be971df4beb5b0f
  { }

  lemma Leap6()
    ensures EightSteps(0xfa4c883b2c8aefd44be971df4beb5b0f) == 0x4c883b2c8aefd44be971df4beb5b70e6
  { }

  lemma Leap7()
    ensures EightSteps(0x4c883b2c8aefd44be971df4beb5b70e6) == 0x883b2c8aefd44be971df4beb5b70c1e4
  { }

  lemma AfterNone()
    ensures FromWord(0x2e2b34ca59fa4c883b2c8aefd44be966) == FromHex(0x66e94bd4ef8a2c3b884cfa59ca342b2e)
  { }

  lemma AfterEight()
    ensures FromWord(0x2b34ca59fa4c883b2c8aefd44be971ca) == FromHex(0xca71e94bd4ef8a2c3b884cfa59ca342b)
  { }

  lemma AfterSixteen()
    ensures FromWord(0x34ca59fa4c883b2c8aefd44be971df51) == FromHex(0x51df71e94bd4ef8a2c3b884cfa59ca34)
  { }

  lemma AfterFiftySix()
    ensures FromWord(0x883b2c8aefd44be971df4beb5b70c1e4) == FromHex(0xe4c1705beb4bdf71e94bd4ef8a2c3b88)
  { }

  lemma UpperSum()
    ensures XorBlock(FromHex(0xe4c1705beb4bdf71e94bd4ef8a2c3b88), FromHex(0x51df71e94bd4ef8a2c3b884cfa59ca34))
         == FromHex(0xb51e01b2a09f30fbc5705ca37075f1bc)
  {
    hide XorBlock;
    SixteenSums(FromHex(0xe4c1705beb4bdf71e94bd4ef8a2c3b88), FromHex(0x51df71e94bd4ef8a2c3b884cfa59ca34));
  }

  lemma LowerSum()
    ensures XorBlock(FromHex(0xca71e94bd4ef8a2c3b884cfa59ca342b), FromHex(0x66e94bd4ef8a2c3b884cfa59ca342b2e))
         == FromHex(0xac98a29f3b65a617b3c4b6a393fe1f05)
  {
    hide XorBlock;
    SixteenSums(FromHex(0xca71e94bd4ef8a2c3b884cfa59ca342b), FromHex(0x66e94bd4ef8a2c3b884cfa59ca342b2e));
  }

  lemma WholeSum()
    ensures XorBlock(FromHex(0xb51e01b2a09f30fbc5705ca37075f1bc), FromHex(0xac98a29f3b65a617b3c4b6a393fe1f05))
         == FromHex(0x1986a32d9bfa96ec76b4ea00e38beeb9)
  {
    hide XorBlock;
    SixteenSums(FromHex(0xb51e01b2a09f30fbc5705ca37075f1bc), FromHex(0xac98a29f3b65a617b3c4b6a393fe1f05));
  }

  /** alpha^1024 = alpha^56 + alpha^16 + alpha^8 + 1, on the ciphertext of the zero block. */
  lemma SectorCarriedOn()
    ensures Alpha(FromHex(0x66e94bd4ef8a2c3b884cfa59ca342b2e), 1024) == FromHex(0x1986a32d9bfa96ec76b4ea00e38beeb9)
  {
    hide EightSteps, FromWord, FromHex, Alpha, XorBlock;
    var w: seq<bv128> := [
      0x2e2b34ca59fa4c883b2c8aefd44be966, 0x2b34ca59fa4c883b2c8aefd44be971ca, 0x34ca59fa4c883b2c8aefd44be971df51,
      0xca59fa4c883b2c8aefd44be971df4b8c, 0x59fa4c883b2c8aefd44be971df4beb76, 0xfa4c883b2c8aefd44be971df4beb5b0f,
      0x4c883b2c8aefd44be971df4beb5b70e6, 0x883b2c8aefd44be971df4beb5b70c1e4];
    Leap1(); Leap2(); Leap3(); Leap4(); Leap5(); Leap6(); Leap7();
    AlphaEight(w[0]); AlphaEight(w[1]); AlphaEight(w[2]); AlphaEight(w[3]);
    AlphaEight(w[4]); AlphaEight(w[5]); AlphaEight(w[6]);
    AlphaOfLeaps(8, w);
    AlphaOfLeaps(8, w[..3]);
    AfterNone();
    AfterEight();
    AfterSixteen();
    AfterFiftySix();
    UpperSum();
    LowerSum();
    WholeSum();
    assert Pow2(3) == 8;
    AlphaRootPower(FromWord(w[0]), 3);
  }
}
