/**
 AES-128 worked out round by round: the example of FIPS 197 appendix C.1, and three blocks under the zero
 key. Of these the first two are the blocks 0 and 1, with the ciphertexts 66e94bd4ef8a2c3b884cfa59ca342b2e
 and 58e2fccefa7e3061367f1d57a4e7455a.
 */
module AesVectors {
  import opened Bytes
  import opened GaloisField
  import opened MixRows
  import opened AesTables
  import opened AesSteps
  import opened KeySchedule
  import opened Aes
  import opened BlockCipher

  /** A block from its bytes in hexadecimal, the first byte leftmost. */
  function FromHex(x: bv128): Block {
    [ByteOf(x >> 120), ByteOf(x >> 112), ByteOf(x >> 104), ByteOf(x >> 96),
     ByteOf(x >> 88), ByteOf(x >> 80), ByteOf(x >> 72), ByteOf(x >> 64),
     ByteOf(x >> 56), ByteOf(x >> 48), ByteOf(x >> 40), ByteOf(x >> 32),
     ByteOf(x >> 24), ByteOf(x >> 16), ByteOf(x >> 8), ByteOf(x)]
  }

  function ByteOf(x: bv128): byte {
    (x & 0xff) as byte
  }

  // ---- rounds and key words written out byte by byte ----

  /** A byte of MixColumns with its key byte, by repeated xtime. */
  function Mixed(a: byte, b: byte, c: byte, d: byte, k: byte): byte {
    Xor(MixByte(a, XTime(a), XTime(b), Xor4(a, b, c, d)), k)
  }

  lemma MixedIsRow(a: byte, b: byte, c: byte, d: byte, k: byte)
    ensures Mixed(a, b, c, d, k) == Xor(MixRow(a, b, c, d), k)
  {
    hide Xor, MixRow, MixByte, XTime, Xor4;
    MixRowAsSum(a, b, c, d);
  }

  function Round(s: Block, k: Block): Block {
    RoundBytes(SubBytesOut(s), k)
  }

  /** The state after SubBytes. */
  function SubBytesOut(s: Block): Block {
    [Sbox(s[0]), Sbox(s[1]), Sbox(s[2]), Sbox(s[3]), Sbox(s[4]), Sbox(s[5]), Sbox(s[6]), Sbox(s[7]),
     Sbox(s[8]), Sbox(s[9]), Sbox(s[10]), Sbox(s[11]), Sbox(s[12]), Sbox(s[13]), Sbox(s[14]), Sbox(s[15])]
  }

  /** What ShiftRows, MixColumns and AddRoundKey make of it. */
  function RoundBytes(u: Block, k: Block): Block {
    [Mixed(u[0], u[5], u[10], u[15], k[0]), Mixed(u[5], u[10], u[15], u[0], k[1]),
     Mixed(u[10], u[15], u[0], u[5], k[2]), Mixed(u[15], u[0], u[5], u[10], k[3]),
     Mixed(u[4], u[9], u[14], u[3], k[4]), Mixed(u[9], u[14], u[3], u[4], k[5]),
     Mixed(u[14], u[3], u[4], u[9], k[6]), Mixed(u[3], u[4], u[9], u[14], k[7]),
     Mixed(u[8], u[13], u[2], u[7], k[8]), Mixed(u[13], u[2], u[7], u[8], k[9]),
     Mixed(u[2], u[7], u[8], u[13], k[10]), Mixed(u[7], u[8], u[13], u[2], k[11]),
     Mixed(u[12], u[1], u[6], u[11], k[12]), Mixed(u[1], u[6], u[11], u[12], k[13]),
     Mixed(u[6], u[11], u[12], u[1], k[14]), Mixed(u[11], u[12], u[1], u[6], k[15])]
  }

  function LastRound(s: Block, k: Block): Block {
    var u := SubBytesOut(s);
    [Xor(u[0], k[0]), Xor(u[5], k[1]), Xor(u[10], k[2]), Xor(u[15], k[3]),
     Xor(u[4], k[4]), Xor(u[9], k[5]), Xor(u[14], k[6]), Xor(u[3], k[7]),
     Xor(u[8], k[8]), Xor(u[13], k[9]), Xor(u[2], k[10]), Xor(u[7], k[11]),
     Xor(u[12], k[12]), Xor(u[1], k[13]), Xor(u[6], k[14]), Xor(u[11], k[15])]
  }

  /** One step of the key schedule on a whole round key. */
  function NextKey(b: Block, r: nat): Block
    requires 1 <= r <= NR
  {
    var t := Schedule(WordAt(b, 3), 4 * r);
    var w0 := XorWord(WordAt(b, 0), t);
    var w1 := XorWord(WordAt(b, 1), w0);
    var w2 := XorWord(WordAt(b, 2), w1);
    w0 + w1 + w2 + XorWord(WordAt(b, 3), w2)
  }

  lemma SubBytesWritten(s: Block)
    ensures SubBytes(s) == SubBytesOut(s)
  {
    hide Sbox;
  }

  /** A middle round of the cipher is the round written out. */
  lemma RoundWritten(rk: seq<byte>, n: nat, s: Block)
    requires |rk| == ROUND_KEY_LEN && n <= NR
    ensures EncryptRound(rk, n, s) == Round(s, BlockAt(rk, n))
  {
    hide Sbox, MixRow, Mixed, Xor, SubBytes, SubBytesOut, ShiftRows, MixColumns, BlockAt, InvShiftRows;
    SubBytesWritten(s);
    var u := SubBytesOut(s);
    ShiftRowsEntries(u);
    var v := ShiftRows(u);
    var m, k := MixColumns(v), BlockAt(rk, n);
    MixColumnBytes(v, m, 0);
    MixColumnBytes(v, m, 1);
    MixColumnBytes(v, m, 2);
    MixColumnBytes(v, m, 3);
    SixteenSums(m, k);
    forall a, b, c, d, e ensures Mixed(a, b, c, d, e) == Xor(MixRow(a, b, c, d), e) {
      MixedIsRow(a, b, c, d, e);
    }
  }

  lemma LastRoundWritten(rk: seq<byte>, s: Block)
    requires |rk| == ROUND_KEY_LEN
    ensures AddRoundKey(rk, NR, ShiftRows(SubBytes(s))) == LastRound(s, BlockAt(rk, NR))
  {
    hide Sbox, Xor, SubBytes, SubBytesOut, ShiftRows, BlockAt, InvShiftRows;
    SubBytesWritten(s);
    ShiftRowsEntries(SubBytesOut(s));
    SixteenSums(ShiftRows(SubBytesOut(s)), BlockAt(rk, NR));
  }

  /** The xor of two blocks written out. */
  function Sums(m: Block, k: Block): Block {
    [Xor(m[0], k[0]), Xor(m[1], k[1]), Xor(m[2], k[2]), Xor(m[3], k[3]),
     Xor(m[4], k[4]), Xor(m[5], k[5]), Xor(m[6], k[6]), Xor(m[7], k[7]),
     Xor(m[8], k[8]), Xor(m[9], k[9]), Xor(m[10], k[10]), Xor(m[11], k[11]),
     Xor(m[12], k[12]), Xor(m[13], k[13]), Xor(m[14], k[14]), Xor(m[15], k[15])]
  }

  lemma SixteenSums(m: Block, k: Block)
    ensures XorBlock(m, k) == Sums(m, k)
  {
    hide XorBlock, Sums, Xor;
    forall i | 0 <= i < BLOCK_LEN ensures XorBlock(m, k)[i] == Sums(m, k)[i] {
      XorBlockAt(m, k, i);
      SumsAt(m, k, i);
    }
  }

  lemma SumsAt(m: Block, k: Block, i: nat)
    requires i < BLOCK_LEN
    ensures Sums(m, k)[i] == Xor(m[i], k[i])
  {
    hide Xor;
    var s := Sums(m, k);
    if i < 8 {
      assert i == 0 || i == 1 || i == 2 || i == 3 || i == 4 || i == 5 || i == 6 || i == 7;
    } else {
      assert i == 8 || i == 9 || i == 10 || i == 11 || i == 12 || i == 13 || i == 14 || i == 15;
    }
  }

  /** The round keys of an expansion follow from each other. */
  lemma NextKeyWritten(w: seq<byte>, r: nat)
    requires IsExpansion(w) && 1 <= r <= NR
    ensures BlockAt(w, r) == NextKey(BlockAt(w, r - 1), r)
  {
    hide XorWord, Schedule, WordAt, BlockAt;
    var b, c := BlockAt(w, r - 1), BlockAt(w, r);
    assert Recurs(w, 4 * r) && Recurs(w, 4 * r + 1) && Recurs(w, 4 * r + 2) && Recurs(w, 4 * r + 3);
    WordOfBlock(w, r - 1, 0);
    WordOfBlock(w, r - 1, 1);
    WordOfBlock(w, r - 1, 2);
    WordOfBlock(w, r - 1, 3);
    WordOfBlock(w, r, 0);
    WordOfBlock(w, r, 1);
    WordOfBlock(w, r, 2);
    WordOfBlock(w, r, 3);
    NotScheduled(WordAt(c, 0), 4 * r + 1);
    NotScheduled(WordAt(c, 1), 4 * r + 2);
    NotScheduled(WordAt(c, 2), 4 * r + 3);
    XorWordCommutes(WordAt(b, 1), WordAt(c, 0));
    FourWords(c);
  }

  lemma WordOfBlock(w: seq<byte>, r: nat, i: nat)
    requires BLOCK_LEN * (r + 1) <= |w| && i < 4
    ensures WordAt(BlockAt(w, r), i) == WordAt(w, 4 * r + i)
  {
    SliceOfSlice(w, BLOCK_LEN * r, BLOCK_LEN, 4 * i, 4 * i + 4);
  }

  lemma NotScheduled(x: Word, i: nat)
    requires i < WORDS && i % 4 != 0
    ensures Schedule(x, i) == x
  { }

  lemma XorWordCommutes(a: Word, b: Word)
    ensures XorWord(a, b) == XorWord(b, a)
  { }

  lemma FourWords(b: Block)
    ensures b == WordAt(b, 0) + WordAt(b, 1) + WordAt(b, 2) + WordAt(b, 3)
  { }

  /** Round keys that begin with the key and follow from each other. */
  ghost predicate Follow(key: seq<byte>, ks: seq<Block>) {
    && |key| >= KEY_LEN && |ks| == NR + 1 && key[..KEY_LEN] == ks[0]
    && forall r :: 1 <= r <= NR ==> ks[r] == NextKey(ks[r - 1], r)
  }

  lemma {:induction false} RoundKeysFollow(key: seq<byte>, ks: seq<Block>, r: nat)
    requires Follow(key, ks) && r <= NR
    ensures BlockAt(Expand(key), r) == ks[r]
  {
    hide Expand, NextKey, IsExpansion;
    var w := Expand(key);
    ExpandIsExpansion(key);
    if r == 0 {
      assert BlockAt(w, 0) == w[..KEY_LEN];
    } else {
      RoundKeysFollow(key, ks, r - 1);
      NextKeyWritten(w, r);
    }
  }

  /** The states between the rounds on a block. */
  ghost predicate Trace(ks: seq<Block>, x: Block, s: seq<Block>) {
    && |ks| == |s| == NR + 1 && s[0] == Sums(x, ks[0])
    && (forall r :: 1 <= r < NR ==> s[r] == Round(s[r - 1], ks[r]))
    && s[NR] == LastRound(s[NR - 1], ks[NR])
  }

  /** Encryption from the states between its rounds. */
  lemma EncryptByRounds(key: seq<byte>, ks: seq<Block>, x: Block, s: seq<Block>)
    requires |key| >= KEY_LEN && Follow(key, ks) && Trace(ks, x, s)
    ensures Encrypt(Expand(key), x) == s[NR]
  {
    hide Follow, Expand, Round, LastRound, XorBlock, Sums, SubBytes, ShiftRows, EncryptRound;
    RoundsAre(key, ks, x, s, NR - 1);
    RoundKeysFollow(key, ks, NR);
    LastRoundWritten(Expand(key), s[NR - 1]);
  }

  lemma {:induction false} RoundsAre(key: seq<byte>, ks: seq<Block>, x: Block, s: seq<Block>, n: nat)
    requires |key| >= KEY_LEN && Follow(key, ks) && Trace(ks, x, s) && n < NR
    ensures Rounds(Expand(key), x, n) == s[n]
  {
    hide Follow, Expand, Round, LastRound, EncryptRound, XorBlock, Sums;
    RoundKeysFollow(key, ks, n);
    if n > 0 {
      RoundsAre(key, ks, x, s, n - 1);
      RoundWritten(Expand(key), n, s[n - 1]);
    } else {
      SixteenSums(x, ks[0]);
    }
  }

  // ---- FIPS 197 appendix C.1: the key 00 01 .. 0f ----

  function CountingKey(): Block {
    FromHex(0x000102030405060708090a0b0c0d0e0f)
  }

  /** The round keys of that key. */
  function CountingKeys(): (ks: seq<Block>)
    ensures |ks| == NR + 1
  {
    [
      FromHex(0x000102030405060708090a0b0c0d0e0f),
      FromHex(0xd6aa74fdd2af72fadaa678f1d6ab76fe),
      FromHex(0xb692cf0b643dbdf1be9bc5006830b3fe),
      FromHex(0xb6ff744ed2c2c9bf6c590cbf0469bf41),
      FromHex(0x47f7f7bc95353e03f96c32bcfd058dfd),
      FromHex(0x3caaa3e8a99f9deb50f3af57adf622aa),
      FromHex(0x5e390f7df7a69296a7553dc10aa31f6b),
      FromHex(0x14f9701ae35fe28c440adf4d4ea9c026),
      FromHex(0x47438735a41c65b9e016baf4aebf7ad2),
      FromHex(0x549932d1f08557681093ed9cbe2c974e),
      FromHex(0x13111d7fe3944a17f307a78b4d2b30c5)
    ]
  }

  lemma CountingKey1()
    ensures NextKey(FromHex(0x000102030405060708090a0b0c0d0e0f), 1) == FromHex(0xd6aa74fdd2af72fadaa678f1d6ab76fe)
  { }

  lemma CountingKey2()
    ensures NextKey(FromHex(0xd6aa74fdd2af72fadaa678f1d6ab76fe), 2) == FromHex(0xb692cf0b643dbdf1be9bc5006830b3fe)
  { }

  lemma CountingKey3()
    ensures NextKey(FromHex(0xb692cf0b643dbdf1be9bc5006830b3fe), 3) == FromHex(0xb6ff744ed2c2c9bf6c590cbf0469bf41)
  { }

  lemma CountingKey4()
    ensures NextKey(FromHex(0xb6ff744ed2c2c9bf6c590cbf0469bf41), 4) == FromHex(0x47f7f7bc95353e03f96c32bcfd058dfd)
  { }

  lemma CountingKey5()
    ensures NextKey(FromHex(0x47f7f7bc95353e03f96c32bcfd058dfd), 5) == FromHex(0x3caaa3e8a99f9deb50f3af57adf622aa)
  { }

  lemma CountingKey6()
    ensures NextKey(FromHex(0x3caaa3e8a99f9deb50f3af57adf622aa), 6) == FromHex(0x5e390f7df7a69296a7553dc10aa31f6b)
  { }

  lemma CountingKey7()
    ensures NextKey(FromHex(0x5e390f7df7a69296a7553dc10aa31f6b), 7) == FromHex(0x14f9701ae35fe28c440adf4d4ea9c026)
  { }

  lemma CountingKey8()
    ensures NextKey(FromHex(0x14f9701ae35fe28c440adf4d4ea9c026), 8) == FromHex(0x47438735a41c65b9e016baf4aebf7ad2)
  { }

  lemma CountingKey9()
    ensures NextKey(FromHex(0x47438735a41c65b9e016baf4aebf7ad2), 9) == FromHex(0x549932d1f08557681093ed9cbe2c974e)
  { }

  lemma CountingKey10()
    ensures NextKey(FromHex(0x549932d1f08557681093ed9cbe2c974e), 10) == FromHex(0x13111d7fe3944a17f307a78b4d2b30c5)
  { }

  lemma CountingKeysFollow()
    ensures Follow(CountingKey(), CountingKeys())
  {
    hide NextKey;
    CountingFirstKey();
    hide FromHex;
    CountingKey1(); CountingKey2(); CountingKey3(); CountingKey4(); CountingKey5();
    CountingKey6(); CountingKey7(); CountingKey8(); CountingKey9(); CountingKey10();
  }

  lemma CountingFirstKey()
    ensures CountingKey()[..KEY_LEN] == FromHex(0x000102030405060708090a0b0c0d0e0f)
  { }

  // ---- the block 00 11 .. ff ----

  lemma Example0()
    ensures Sums(FromHex(0x00112233445566778899aabbccddeeff), FromHex(0x000102030405060708090a0b0c0d0e0f))
         == FromHex(0x00102030405060708090a0b0c0d0e0f0)
  { }

  lemma Example1()
    ensures Round(FromHex(0x00102030405060708090a0b0c0d0e0f0), FromHex(0xd6aa74fdd2af72fadaa678f1d6ab76fe))
         == FromHex(0x89d810e8855ace682d1843d8cb128fe4)
  { }

  lemma Example2()
    ensures Round(FromHex(0x89d810e8855ace682d1843d8cb128fe4), FromHex(0xb692cf0b643dbdf1be9bc5006830b3fe))
         == FromHex(0x4915598f55e5d7a0daca94fa1f0a63f7)
  { }

  lemma Example3()
    ensures Round(FromHex(0x4915598f55e5d7a0daca94fa1f0a63f7), FromHex(0xb6ff744ed2c2c9bf6c590cbf0469bf41))
         == FromHex(0xfa636a2825b339c940668a3157244d17)
  { }

  lemma Example4()
    ensures Round(FromHex(0xfa636a2825b339c940668a3157244d17), FromHex(0x47f7f7bc95353e03f96c32bcfd058dfd))
         == FromHex(0x247240236966b3fa6ed2753288425b6c)
  { }

  lemma Example5()
    ensures Round(FromHex(0x247240236966b3fa6ed2753288425b6c), FromHex(0x3caaa3e8a99f9deb50f3af57adf622aa))
         == FromHex(0xc81677bc9b7ac93b25027992b0261996)
  { }

  lemma Example6()
    ensures Round(FromHex(0xc81677bc9b7ac93b25027992b0261996), FromHex(0x5e390f7df7a69296a7553dc10aa31f6b))
         == FromHex(0xc62fe109f75eedc3cc79395d84f9cf5d)
  { }

  lemma Example7()
    ensures Round(FromHex(0xc62fe109f75eedc3cc79395d84f9cf5d), FromHex(0x14f9701ae35fe28c440adf4d4ea9c026))
         == FromHex(0xd1876c0f79c4300ab45594add66ff41f)
  { }

  lemma Example8()
    ensures Round(FromHex(0xd1876c0f79c4300ab45594add66ff41f), FromHex(0x47438735a41c65b9e016baf4aebf7ad2))
         == FromHex(0xfde3bad205e5d0d73547964ef1fe37f1)
  { }

  lemma Example9()
    ensures Round(FromHex(0xfde3bad205e5d0d73547964ef1fe37f1), FromHex(0x549932d1f08557681093ed9cbe2c974e))
         == FromHex(0xbd6e7c3df2b5779e0b61216e8b10b689)
  { }

  lemma Example10()
    ensures LastRound(FromHex(0xbd6e7c3df2b5779e0b61216e8b10b689), FromHex(0x13111d7fe3944a17f307a78b4d2b30c5))
         == FromHex(0x69c4e0d86a7b0430d8cdb78070b4c55a)
  { }

  lemma EncryptExample()
    ensures Encrypt(Expand(CountingKey()), FromHex(0x00112233445566778899aabbccddeeff))
         == FromHex(0x69c4e0d86a7b0430d8cdb78070b4c55a)
  {
    hide Encrypt, Expand, FromHex, Follow, Round, LastRound, Sums;
    var s: seq<Block> := [
      FromHex(0x00102030405060708090a0b0c0d0e0f0),
      FromHex(0x89d810e8855ace682d1843d8cb128fe4),
      FromHex(0x4915598f55e5d7a0daca94fa1f0a63f7),
      FromHex(0xfa636a2825b339c940668a3157244d17),
      FromHex(0x247240236966b3fa6ed2753288425b6c),
      FromHex(0xc81677bc9b7ac93b25027992b0261996),
      FromHex(0xc62fe109f75eedc3cc79395d84f9cf5d),
      FromHex(0xd1876c0f79c4300ab45594add66ff41f),
      FromHex(0xfde3bad205e5d0d73547964ef1fe37f1),
      FromHex(0xbd6e7c3df2b5779e0b61216e8b10b689),
      FromHex(0x69c4e0d86a7b0430d8cdb78070b4c55a)
    ];
    CountingKeysFollow();
    Example0(); Example1(); Example2(); Example3(); Example4();
    Example5(); Example6(); Example7(); Example8(); Example9();
    Example10();
    EncryptByRounds(CountingKey(), CountingKeys(), FromHex(0x00112233445566778899aabbccddeeff), s);
  }

  /** The example of FIPS 197 appendix C.1. */
  lemma ExampleVector()
    ensures Aes128(FromHex(0x000102030405060708090a0b0c0d0e0f)).enc(FromHex(0x00112233445566778899aabbccddeeff))
         == FromHex(0x69c4e0d86a7b0430d8cdb78070b4c55a)
  {
    hide Encrypt, Expand;
    EncryptExample();
  }

  // ---- the zero key ----

  function ZeroKeyBytes(): (key: seq<byte>)
    ensures |key| == 32
  {
    ZERO_BLOCK + ZERO_BLOCK
  }

  /** The round keys of the zero key. */
  function ZeroKeys(): (ks: seq<Block>)
    ensures |ks| == NR + 1
  {
    [
      FromHex(0x00000000000000000000000000000000),
      FromHex(0x62636363626363636263636362636363),
      FromHex(0x9b9898c9f9fbfbaa9b9898c9f9fbfbaa),
      FromHex(0x90973450696ccffaf2f457330b0fac99),
      FromHex(0xee06da7b876a1581759e42b27e91ee2b),
      FromHex(0x7f2e2b88f8443e098dda7cbbf34b9290),
      FromHex(0xec614b851425758c99ff09376ab49ba7),
      FromHex(0x217517873550620bacaf6b3cc61bf09b),
      FromHex(0x0ef903333ba9613897060a04511dfa9f),
      FromHex(0xb1d4d8e28a7db9da1d7bb3de4c664941),
      FromHex(0xb4ef5bcb3e92e21123e951cf6f8f188e)
    ]
  }

  lemma ZeroKey1()
    ensures NextKey(FromHex(0x00000000000000000000000000000000), 1) == FromHex(0x62636363626363636263636362636363)
  { }

  lemma ZeroKey2()
    ensures NextKey(FromHex(0x62636363626363636263636362636363), 2) == FromHex(0x9b9898c9f9fbfbaa9b9898c9f9fbfbaa)
  { }

  lemma ZeroKey3()
    ensures NextKey(FromHex(0x9b9898c9f9fbfbaa9b9898c9f9fbfbaa), 3) == FromHex(0x90973450696ccffaf2f457330b0fac99)
  { }

  lemma ZeroKey4()
    ensures NextKey(FromHex(0x90973450696ccffaf2f457330b0fac99), 4) == FromHex(0xee06da7b876a1581759e42b27e91ee2b)
  { }

  lemma ZeroKey5()
    ensures NextKey(FromHex(0xee06da7b876a1581759e42b27e91ee2b), 5) == FromHex(0x7f2e2b88f8443e098dda7cbbf34b9290)
  { }

  lemma ZeroKey6()
    ensures NextKey(FromHex(0x7f2e2b88f8443e098dda7cbbf34b9290), 6) == FromHex(0xec614b851425758c99ff09376ab49ba7)
  { }

  lemma ZeroKey7()
    ensures NextKey(FromHex(0xec614b851425758c99ff09376ab49ba7), 7) == FromHex(0x217517873550620bacaf6b3cc61bf09b)
  { }

  lemma ZeroKey8()
    ensures NextKey(FromHex(0x217517873550620bacaf6b3cc61bf09b), 8) == FromHex(0x0ef903333ba9613897060a04511dfa9f)
  { }

  lemma ZeroKey9()
    ensures NextKey(FromHex(0x0ef903333ba9613897060a04511dfa9f), 9) == FromHex(0xb1d4d8e28a7db9da1d7bb3de4c664941)
  { }

  lemma ZeroKey10()
    ensures NextKey(FromHex(0xb1d4d8e28a7db9da1d7bb3de4c664941), 10) == FromHex(0xb4ef5bcb3e92e21123e951cf6f8f188e)
  { }

  lemma ZeroKeysFollow()
    ensures Follow(ZeroKeyBytes(), ZeroKeys())
  {
    hide NextKey;
    ZeroFirstKey();
    hide FromHex;
    ZeroKey1(); ZeroKey2(); ZeroKey3(); ZeroKey4(); ZeroKey5();
    ZeroKey6(); ZeroKey7(); ZeroKey8(); ZeroKey9(); ZeroKey10();
  }

  lemma ZeroFirstKey()
    ensures ZeroKeyBytes()[..KEY_LEN] == FromHex(0x00000000000000000000000000000000)
  { }

  // ---- the zero block ----

  lemma Zero0()
    ensures Sums(FromHex(0x00000000000000000000000000000000), FromHex(0x00000000000000000000000000000000))
         == FromHex(0x00000000000000000000000000000000)
  { }

  lemma Zero1()
    ensures Round(FromHex(0x00000000000000000000000000000000), FromHex(0x62636363626363636263636362636363))
         == FromHex(0x01000000010000000100000001000000)
  { }

  lemma Zero2()
    ensures Round(FromHex(0x01000000010000000100000001000000), FromHex(0x9b9898c9f9fbfbaa9b9898c9f9fbfbaa))
         == FromHex(0xc6e4e48ba48787e8c6e4e48ba48787e8)
  { }

  lemma Zero3()
    ensures Round(FromHex(0xc6e4e48ba48787e8c6e4e48ba48787e8), FromHex(0x90973450696ccffaf2f457330b0fac99))
         == FromHex(0x282df3c46af386254a4e90a70890e546)
  { }

  lemma Zero4()
    ensures Round(FromHex(0x282df3c46af386254a4e90a70890e546), FromHex(0xee06da7b876a1581759e42b27e91ee2b))
         == FromHex(0xabd2cdfe375ab54950a0afc0759a6a5f)
  { }

  lemma Zero5()
    ensures Round(FromHex(0xabd2cdfe375ab54950a0afc0759a6a5f), FromHex(0x7f2e2b88f8443e098dda7cbbf34b9290))
         == FromHex(0xd46f4f6c55b896337e05bb3d7979de23)
  { }

  lemma Zero6()
    ensures Round(FromHex(0xd46f4f6c55b896337e05bb3d7979de23), FromHex(0xec614b851425758c99ff09376ab49ba7))
         == FromHex(0x04f2ca9707782845e22f019649c5d710)
  { }

  lemma Zero7()
    ensures Round(FromHex(0x04f2ca9707782845e22f019649c5d710), FromHex(0x217517873550620bacaf6b3cc61bf09b))
         == FromHex(0xb7aae4c51d252d4f6c920f8194e58150)
  { }

  lemma Zero8()
    ensures Round(FromHex(0xb7aae4c51d252d4f6c920f8194e58150), FromHex(0x0ef903333ba9613897060a04511dfa9f))
         == FromHex(0x23e78c3c132163dbaac0c6572e03cb95)
  { }

  lemma Zero9()
    ensures Round(FromHex(0x23e78c3c132163dbaac0c6572e03cb95), FromHex(0xb1d4d8e28a7db9da1d7bb3de4c664941))
         == FromHex(0x7ffe0e9551a566350e347c472929eccb)
  { }

  lemma Zero10()
    ensures LastRound(FromHex(0x7ffe0e9551a566350e347c472929eccb), FromHex(0xb4ef5bcb3e92e21123e951cf6f8f188e))
         == FromHex(0x66e94bd4ef8a2c3b884cfa59ca342b2e)
  { }

  lemma EncryptZero()
    ensures Encrypt(Expand(ZeroKeyBytes()), FromHex(0x00000000000000000000000000000000))
         == FromHex(0x66e94bd4ef8a2c3b884cfa59ca342b2e)
  {
    hide Encrypt, Expand, FromHex, Follow, Round, LastRound, Sums;
    var s: seq<Block> := [
      FromHex(0x00000000000000000000000000000000),
      FromHex(0x01000000010000000100000001000000),
      FromHex(0xc6e4e48ba48787e8c6e4e48ba48787e8),
      FromHex(0x282df3c46af386254a4e90a70890e546),
      FromHex(0xabd2cdfe375ab54950a0afc0759a6a5f),
      FromHex(0xd46f4f6c55b896337e05bb3d7979de23),
      FromHex(0x04f2ca9707782845e22f019649c5d710),
      FromHex(0xb7aae4c51d252d4f6c920f8194e58150),
      FromHex(0x23e78c3c132163dbaac0c6572e03cb95),
      FromHex(0x7ffe0e9551a566350e347c472929eccb),
      FromHex(0x66e94bd4ef8a2c3b884cfa59ca342b2e)
    ];
    ZeroKeysFollow();
    Zero0(); Zero1(); Zero2(); Zero3(); Zero4();
    Zero5(); Zero6(); Zero7(); Zero8(); Zero9();
    Zero10();
    EncryptByRounds(ZeroKeyBytes(), ZeroKeys(), FromHex(0x00000000000000000000000000000000), s);
  }

  // ---- the block of sector number 1 ----

  lemma One0()
    ensures Sums(FromHex(0x00000000000000000000000000000001), FromHex(0x00000000000000000000000000000000))
         == FromHex(0x00000000000000000000000000000001)
  { }

  lemma One1()
    ensures Round(FromHex(0x00000000000000000000000000000001), FromHex(0x62636363626363636263636362636363))
         == FromHex(0x1e1f213e010000000100000001000000)
  { }

  lemma One2()
    ensures Round(FromHex(0x1e1f213e010000000100000001000000), FromHex(0x9b9898c9f9fbfbaa9b9898c9f9fbfbaa))
         == FromHex(0xdaeaea997556ef51585dc3155ada244b)
  { }

  lemma One3()
    ensures Round(FromHex(0xdaeaea997556ef51585dc3155ada244b), FromHex(0x90973450696ccffaf2f457330b0fac99))
         == FromHex(0x6b78404b44dd5bfb897317e47887dbaa)
  { }

  lemma One4()
    ensures Round(FromHex(0x6b78404b44dd5bfb897317e47887dbaa), FromHex(0xee06da7b876a1581759e42b27e91ee2b))
         == FromHex(0x14477088311726e71f03f140926c27a3)
  { }

  lemma One5()
    ensures Round(FromHex(0x14477088311726e71f03f140926c27a3), FromHex(0x7f2e2b88f8443e098dda7cbbf34b9290))
         == FromHex(0x30dd66d8e8fe567f23dde9d268549304)
  { }

  lemma One6()
    ensures Round(FromHex(0x30dd66d8e8fe567f23dde9d268549304), FromHex(0xec614b851425758c99ff09376ab49ba7))
         == FromHex(0xded8c5d3dc392fe5541e04f1bc15a269)
  { }

  lemma One7()
    ensures Round(FromHex(0xded8c5d3dc392fe5541e04f1bc15a269), FromHex(0x217517873550620bacaf6b3cc61bf09b))
         == FromHex(0x26b8f7a9e81a481e7815350a1b222619)
  { }

  lemma One8()
    ensures Round(FromHex(0x26b8f7a9e81a481e7815350a1b222619), FromHex(0x0ef903333ba9613897060a04511dfa9f))
         == FromHex(0x442406b6d951389d404d63c495fb3485)
  { }

  lemma One9()
    ensures Round(FromHex(0x442406b6d951389d404d63c495fb3485), FromHex(0xb1d4d8e28a7db9da1d7bb3de4c664941))
         == FromHex(0x83f75dd088f38de22f83891959357f36)
  { }

  lemma One10()
    ensures LastRound(FromHex(0x83f75dd088f38de22f83891959357f36), FromHex(0xb4ef5bcb3e92e21123e951cf6f8f188e))
         == FromHex(0x58e2fccefa7e3061367f1d57a4e7455a)
  { }

  lemma EncryptOne()
    ensures Encrypt(Expand(ZeroKeyBytes()), FromHex(0x00000000000000000000000000000001))
         == FromHex(0x58e2fccefa7e3061367f1d57a4e7455a)
  {
    hide Encrypt, Expand, FromHex, Follow, Round, LastRound, Sums;
    var s: seq<Block> := [
      FromHex(0x00000000000000000000000000000001),
      FromHex(0x1e1f213e010000000100000001000000),
      FromHex(0xdaeaea997556ef51585dc3155ada244b),
      FromHex(0x6b78404b44dd5bfb897317e47887dbaa),
      FromHex(0x14477088311726e71f03f140926c27a3),
      FromHex(0x30dd66d8e8fe567f23dde9d268549304),
      FromHex(0xded8c5d3dc392fe5541e04f1bc15a269),
      FromHex(0x26b8f7a9e81a481e7815350a1b222619),
      FromHex(0x442406b6d951389d404d63c495fb3485),
      FromHex(0x83f75dd088f38de22f83891959357f36),
      FromHex(0x58e2fccefa7e3061367f1d57a4e7455a)
    ];
    ZeroKeysFollow();
    One0(); One1(); One2(); One3(); One4();
    One5(); One6(); One7(); One8(); One9();
    One10();
    EncryptByRounds(ZeroKeyBytes(), ZeroKeys(), FromHex(0x00000000000000000000000000000001), s);
  }

  // ---- the difference of the two tweaks of the block after sector 0 ----

  lemma Difference0()
    ensures Sums(FromHex(0x41645fe36184a68d40cbf757476cabe3), FromHex(0x00000000000000000000000000000000))
         == FromHex(0x41645fe36184a68d40cbf757476cabe3)
  { }

  lemma Difference1()
    ensures Round(FromHex(0x41645fe36184a68d40cbf757476cabe3), FromHex(0x62636363626363636263636362636363))
         == FromHex(0xe7f75ce8f505641612dd585d83722549)
  { }

  lemma Difference2()
    ensures Round(FromHex(0xe7f75ce8f505641612dd585d83722549), FromHex(0x9b9898c9f9fbfbaa9b9898c9f9fbfbaa))
         == FromHex(0x445ffe19d25e1448df484c0d8d4e2d36)
  { }

  lemma Difference3()
    ensures Round(FromHex(0x445ffe19d25e1448df484c0d8d4e2d36), FromHex(0x90973450696ccffaf2f457330b0fac99))
         == FromHex(0x62422a06e2dae4074db07dbad615b3fe)
  { }

  lemma Difference4()
    ensures Round(FromHex(0x62422a06e2dae4074db07dbad615b3fe), FromHex(0xee06da7b876a1581759e42b27e91ee2b))
         == FromHex(0x1ca3145b9cff0166633e7da16070e19c)
  { }

  lemma Difference5()
    ensures Round(FromHex(0x1ca3145b9cff0166633e7da16070e19c), FromHex(0x7f2e2b88f8443e098dda7cbbf34b9290))
         == FromHex(0x475a3d7953cff2485aa56c601839e6e9)
  { }

  lemma Difference6()
    ensures Round(FromHex(0x475a3d7953cff2485aa56c601839e6e9), FromHex(0xec614b851425758c99ff09376ab49ba7))
         == FromHex(0x7c20e398e7fb585fbd5e1d7fab2eeac7)
  { }

  lemma Difference7()
    ensures Round(FromHex(0x7c20e398e7fb585fbd5e1d7fab2eeac7), FromHex(0x217517873550620bacaf6b3cc61bf09b))
         == FromHex(0x724a0a8b2fa071ffd54b481778609c5f)
  { }

  lemma Difference8()
    ensures Round(FromHex(0x724a0a8b2fa071ffd54b481778609c5f), FromHex(0x0ef903333ba9613897060a04511dfa9f))
         == FromHex(0x285b4dc43c8527108b012d9a0018c6ce)
  { }

  lemma Difference9()
    ensures Round(FromHex(0x285b4dc43c8527108b012d9a0018c6ce), FromHex(0xb1d4d8e28a7db9da1d7bb3de4c664941))
         == FromHex(0x282d56fc6bb5790ca2f3bb58b580437a)
  { }

  lemma Difference10()
    ensures LastRound(FromHex(0x282d56fc6bb5790ca2f3bb58b580437a), FromHex(0xb4ef5bcb3e92e21123e951cf6f8f188e))
         == FromHex(0x803ab111419ff8a11924e031ba57aee4)
  { }

  lemma EncryptDifference()
    ensures Encrypt(Expand(ZeroKeyBytes()), FromHex(0x41645fe36184a68d40cbf757476cabe3))
         == FromHex(0x803ab111419ff8a11924e031ba57aee4)
  {
    hide Encrypt, Expand, FromHex, Follow, Round, LastRound, Sums;
    var s: seq<Block> := [
      FromHex(0x41645fe36184a68d40cbf757476cabe3),
      FromHex(0xe7f75ce8f505641612dd585d83722549),
      FromHex(0x445ffe19d25e1448df484c0d8d4e2d36),
      FromHex(0x62422a06e2dae4074db07dbad615b3fe),
      FromHex(0x1ca3145b9cff0166633e7da16070e19c),
      FromHex(0x475a3d7953cff2485aa56c601839e6e9),
      FromHex(0x7c20e398e7fb585fbd5e1d7fab2eeac7),
      FromHex(0x724a0a8b2fa071ffd54b481778609c5f),
      FromHex(0x285b4dc43c8527108b012d9a0018c6ce),
      FromHex(0x282d56fc6bb5790ca2f3bb58b580437a),
      FromHex(0x803ab111419ff8a11924e031ba57aee4)
    ];
    ZeroKeysFollow();
    Difference0(); Difference1(); Difference2(); Difference3(); Difference4();
    Difference5(); Difference6(); Difference7(); Difference8(); Difference9();
    Difference10();
    EncryptByRounds(ZeroKeyBytes(), ZeroKeys(), FromHex(0x41645fe36184a68d40cbf757476cabe3), s);
  }
}
