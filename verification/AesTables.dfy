/** The lookup tables of aes.c, one sixteen-byte row to a literal, and the round constants. */
module AesTables {
  import opened Bytes
  import opened GaloisField

  /** The table sbox: the row is chosen by the high nibble, the byte in it by the low one. */
  function Sbox(x: byte): byte {
    var row: bv128 :=
      if x < 0x10 then 0x637c777bf26b6fc53001672bfed7ab76
      else if x < 0x20 then 0xca82c97dfa5947f0add4a2af9ca472c0
      else if x < 0x30 then 0xb7fd9326363ff7cc34a5e5f171d83115
      else if x < 0x40 then 0x04c723c31896059a071280e2eb27b275
      else if x < 0x50 then 0x09832c1a1b6e5aa0523bd6b329e32f84
      else if x < 0x60 then 0x53d100ed20fcb15b6acbbe394a4c58cf
      else if x < 0x70 then 0xd0efaafb434d338545f9027f503c9fa8
      else if x < 0x80 then 0x51a3408f929d38f5bcb6da2110fff3d2
      else if x < 0x90 then 0xcd0c13ec5f974417c4a77e3d645d1973
      else if x < 0xa0 then 0x60814fdc222a908846eeb814de5e0bdb
      else if x < 0xb0 then 0xe0323a0a4906245cc2d3ac629195e479
      else if x < 0xc0 then 0xe7c8376d8dd54ea96c56f4ea657aae08
      else if x < 0xd0 then 0xba78252e1ca6b4c6e8dd741f4bbd8b8a
      else if x < 0xe0 then 0x703eb5664803f60e613557b986c11d9e
      else if x < 0xf0 then 0xe1f8981169d98e949b1e87e9ce5528df
      else 0x8ca1890dbfe6426841992d0fb054bb16;
    ((row >> (8 * (15 - (x & 0xf)))) & 0xff) as byte
  }

  /** The table rsbox. */
  function InvSbox(x: byte): byte {
    var row: bv128 :=
      if x < 0x10 then 0x52096ad53036a538bf40a39e81f3d7fb
      else if x < 0x20 then 0x7ce339829b2fff87348e4344c4dee9cb
      else if x < 0x30 then 0x547b9432a6c2233dee4c950b42fac34e
      else if x < 0x40 then 0x082ea16628d924b2765ba2496d8bd125
      else if x < 0x50 then 0x72f8f66486689816d4a45ccc5d65b692
      else if x < 0x60 then 0x6c704850fdedb9da5e154657a78d9d84
      else if x < 0x70 then 0x90d8ab008cbcd30af7e45805b8b34506
      else if x < 0x80 then 0xd02c1e8fca3f0f02c1afbd0301138a6b
      else if x < 0x90 then 0x3a9111414f67dcea97f2cfcef0b4e673
      else if x < 0xa0 then 0x96ac7422e7ad3585e2f937e81c75df6e
      else if x < 0xb0 then 0x47f11a711d29c5896fb7620eaa18be1b
      else if x < 0xc0 then 0xfc563e4bc6d279209adbc0fe78cd5af4
      else if x < 0xd0 then 0x1fdda8338807c731b11210592780ec5f
      else if x < 0xe0 then 0x60517fa919b54a0d2de57a9f93c99cef
      else if x < 0xf0 then 0xa0e03b4dae2af5b0c8ebbb3c83539961
      else 0x172b047eba77d626e169146355210c7d;
    ((row >> (8 * (15 - (x & 0xf)))) & 0xff) as byte
  }

  lemma InvSboxOfSbox(x: byte)
    ensures InvSbox(Sbox(x)) == x
  { }

  lemma SboxOfInvSbox(x: byte)
    ensures Sbox(InvSbox(x)) == x
  { }

  // ---- what the table computes ----

  /** The affine transformation of FIPS 197 section 5.1.1: the byte and its rotations by 1 to 4, and 0x63. */
  function Affine(y: byte): byte {
    y ^ ((y << 1) | (y >> 7)) ^ ((y << 2) | (y >> 6)) ^ ((y << 3) | (y >> 5)) ^ ((y << 4) | (y >> 4)) ^ 0x63
  }

  /** Its inverse. */
  function Unaffine(z: byte): byte {
    ((z << 1) | (z >> 7)) ^ ((z << 3) | (z >> 5)) ^ ((z << 6) | (z >> 2)) ^ 0x05
  }

  lemma AffineOfUnaffine(z: byte)
    ensures Affine(Unaffine(z)) == z
  { }

  /** The table entry gives the inverse of `x`, on both sides. */
  predicate FromTable(x: byte) {
    GfMul(x, Unaffine(Sbox(x))) == 1 && GfMul(Unaffine(Sbox(x)), x) == 1
  }

  // One row of the table to a lemma.

  lemma InverseInRow0(low: byte)
    requires 0 < low < 0x10
    ensures FromTable(low)
  { }

  lemma InverseInRow1(low: byte)
    requires low < 0x10
    ensures FromTable(0x10 | low)
  { }

  lemma InverseInRow2(low: byte)
    requires low < 0x10
    ensures FromTable(0x20 | low)
  { }

  lemma InverseInRow3(low: byte)
    requires low < 0x10
    ensures FromTable(0x30 | low)
  { }

  lemma InverseInRow4(low: byte)
    requires low < 0x10
    ensures FromTable(0x40 | low)
  { }

  lemma InverseInRow5(low: byte)
    requires low < 0x10
    ensures FromTable(0x50 | low)
  { }

  lemma InverseInRow6(low: byte)
    requires low < 0x10
    ensures FromTable(0x60 | low)
  { }

  lemma InverseInRow7(low: byte)
    requires low < 0x10
    ensures FromTable(0x70 | low)
  { }

  lemma InverseInRow8(low: byte)
    requires low < 0x10
    ensures FromTable(0x80 | low)
  { }

  lemma InverseInRow9(low: byte)
    requires low < 0x10
    ensures FromTable(0x90 | low)
  { }

  lemma InverseInRowA(low: byte)
    requires low < 0x10
    ensures FromTable(0xa0 | low)
  { }

  lemma InverseInRowB(low: byte)
    requires low < 0x10
    ensures FromTable(0xb0 | low)
  { }

  lemma InverseInRowC(low: byte)
    requires low < 0x10
    ensures FromTable(0xc0 | low)
  { }

  lemma InverseInRowD(low: byte)
    requires low < 0x10
    ensures FromTable(0xd0 | low)
  { }

  lemma InverseInRowE(low: byte)
    requires low < 0x10
    ensures FromTable(0xe0 | low)
  { }

  lemma InverseInRowF(low: byte)
    requires low < 0x10
    ensures FromTable(0xf0 | low)
  { }

  lemma Nibbles(x: byte)
    ensures x & 0x0f < 0x10
    ensures x < 0x10 ==> x == x & 0x0f
    ensures 0x10 <= x < 0x20 ==> x == 0x10 | (x & 0x0f)
    ensures 0x20 <= x < 0x30 ==> x == 0x20 | (x & 0x0f)
    ensures 0x30 <= x < 0x40 ==> x == 0x30 | (x & 0x0f)
    ensures 0x40 <= x < 0x50 ==> x == 0x40 | (x & 0x0f)
    ensures 0x50 <= x < 0x60 ==> x == 0x50 | (x & 0x0f)
    ensures 0x60 <= x < 0x70 ==> x == 0x60 | (x & 0x0f)
    ensures 0x70 <= x < 0x80 ==> x == 0x70 | (x & 0x0f)
    ensures 0x80 <= x < 0x90 ==> x == 0x80 | (x & 0x0f)
    ensures 0x90 <= x < 0xa0 ==> x == 0x90 | (x & 0x0f)
    ensures 0xa0 <= x < 0xb0 ==> x == 0xa0 | (x & 0x0f)
    ensures 0xb0 <= x < 0xc0 ==> x == 0xb0 | (x & 0x0f)
    ensures 0xc0 <= x < 0xd0 ==> x == 0xc0 | (x & 0x0f)
    ensures 0xd0 <= x < 0xe0 ==> x == 0xd0 | (x & 0x0f)
    ensures 0xe0 <= x < 0xf0 ==> x == 0xe0 | (x & 0x0f)
    ensures 0xf0 <= x ==> x == 0xf0 | (x & 0x0f)
  { }

  lemma InverseInTable(x: byte)
    requires x != 0
    ensures FromTable(x)
  {
    hide FromTable;
    var low := x & 0x0f;
    Nibbles(x);
    if x < 0x10 {
      InverseInRow0(low);
    } else if x < 0x20 {
      InverseInRow1(low);
    } else if x < 0x30 {
      InverseInRow2(low);
    } else if x < 0x40 {
      InverseInRow3(low);
    } else if x < 0x50 {
      InverseInRow4(low);
    } else if x < 0x60 {
      InverseInRow5(low);
    } else if x < 0x70 {
      InverseInRow6(low);
    } else if x < 0x80 {
      InverseInRow7(low);
    } else if x < 0x90 {
      InverseInRow8(low);
    } else if x < 0xa0 {
      InverseInRow9(low);
    } else if x < 0xb0 {
      InverseInRowA(low);
    } else if x < 0xc0 {
      InverseInRowB(low);
    } else if x < 0xd0 {
      InverseInRowC(low);
    } else if x < 0xe0 {
      InverseInRowD(low);
    } else if x < 0xf0 {
      InverseInRowE(low);
    } else {
      InverseInRowF(low);
    }
  }

  /**
   FIPS 197 section 5.1.1, at every byte: the entry is the affine transformation of the multiplicative
   inverse, which every byte but zero has, and 0x63 at zero.
   */
  lemma SboxIsAffineInverse(x: byte)
    ensures Sbox(0) == 0x63
    ensures x != 0 ==> exists y: byte :: GfMul(x, y) == 1
    ensures forall y: byte :: GfMul(x, y) == 1 ==>
      Sbox(x)
      == y ^ ((y << 1) | (y >> 7)) ^ ((y << 2) | (y >> 6)) ^ ((y << 3) | (y >> 5)) ^ ((y << 4) | (y >> 4)) ^ 0x63
  {
    SboxOfZero();
    hide GfMul, Sbox, Unaffine;
    if x != 0 {
      InverseInTable(x);
      assert GfMul(x, Unaffine(Sbox(x))) == 1;
    }
    forall y: byte | GfMul(x, y) == 1 ensures Sbox(x) == Affine(y) {
      OnlyInverse(x, y);
    }
  }

  lemma OnlyInverse(x: byte, y: byte)
    requires GfMul(x, y) == 1
    ensures Sbox(x) == Affine(y)
  {
    hide GfMul, Sbox, Affine, Unaffine;
    if x == 0 {
      TimesZero(y);
    } else {
      InverseInTable(x);
      InverseUnique(x, Unaffine(Sbox(x)), y);
      AffineOfUnaffine(Sbox(x));
    }
  }

  lemma TimesZero(y: byte)
    ensures GfMul(0, y) == 0
  { }

  lemma SboxOfZero()
    ensures Sbox(0) == 0x63
  { }

  /** The table Rcon; entry 0 is not used. */
  function Rcon(i: nat): byte
    requires i <= 10
  {
    if i == 0 then 0x8d
    else if i == 1 then 0x01
    else if i == 2 then 0x02
    else if i == 3 then 0x04
    else if i == 4 then 0x08
    else if i == 5 then 0x10
    else if i == 6 then 0x20
    else if i == 7 then 0x40
    else if i == 8 then 0x80
    else if i == 9 then 0x1b
    else 0x36
  }

  /** The entries are the successive powers of x, FIPS 197 section 5.2. */
  lemma RconIsPowersOfX(i: nat)
    requires 1 <= i < 10
    ensures Rcon(1) == 1 && Rcon(i + 1) == GfMul(Rcon(i), 2)
  {
    if i <= 5 {
    } else {
    }
  }
}
