/**
 The exact condition of nand_read under the cipher the driver runs: for AES-128 and the 32-byte keys of the
 partition table, with the zero key as the one that shows each failure.
 */
module AesReads {
  import opened Bytes
  import opened BlockCipher
  import opened Tweak
  import opened Xtsn
  import opened PlainView
  import opened ReadLoop
  import opened ReadLimits
  import opened AesVectors
  import opened TweakWords
  import opened KeySchedule
  import Aes

  const KEY_SIZE: nat := 32

  function AesKeys(cryptKey: seq<byte>, tweakKey: seq<byte>): Keys
    requires |cryptKey| == |tweakKey| == KEY_SIZE
  {
    Keys(Aes128(cryptKey), Aes128(tweakKey))
  }

  /** Whatever the two AES keys and the contents of a partition of `length` bytes, the read is the view's slice. */
  ghost predicate AesReadsExactly(length: nat, offset: nat, size: nat)
    requires length % BLOCK_LEN == 0 && offset + size <= length < OFFSET_LIMIT
  {
    forall cryptKey: seq<byte>, tweakKey: seq<byte>, raw: seq<byte> ::
      |cryptKey| == |tweakKey| == KEY_SIZE && |raw| == length ==>
      Read(true, AesKeys(cryptKey, tweakKey), raw, offset, size)
      == Plain(AesKeys(cryptKey, tweakKey), raw)[offset..offset + size]
  }

  /** The range does not end on a block, or neither starts on one nor fills a first chunk. */
  predicate Misaligned(offset: nat, size: nat) {
    (offset + size) % BLOCK_LEN != 0 || (offset % BLOCK_LEN != 0 && size < READ_SIZE)
  }

  // ---- the zero key ----

  function ZeroKeys(): Keys {
    AesKeys(ZeroKeyBytes(), ZeroKeyBytes())
  }

  lemma ZeroKeysEncrypt(x: Block)
    ensures ZeroKeys().crypt == ZeroKeys().tweak
    ensures ZeroKeys().crypt.enc(x) == Aes.Encrypt(Expand(ZeroKeyBytes()), x)
  { }

  lemma NoZeroByte()
    ensures forall i :: 0 <= i < BLOCK_LEN ==> FromHex(0x66e94bd4ef8a2c3b884cfa59ca342b2e)[i] != 0
  { }

  lemma ZeroHex()
    ensures FromHex(0) == ZERO_BLOCK
  { }

  /** The ciphertext of the zero block has no zero byte. */
  lemma ZeroKeysShowZero()
    ensures ShowsZero(ZeroKeys().crypt)
  {
    hide FromHex, Expand, Aes.Encrypt;
    ZeroKeysEncrypt(ZERO_BLOCK);
    ZeroHex();
    EncryptZero();
    NoZeroByte();
  }

  // ---- the end of sector 0 ----

  lemma {:induction false} HostBytesOfZero(n: nat)
    ensures forall i :: 0 <= i < n ==> HostBytes(0, n)[i] == 0
  {
    ToByteAsNat(0);
    if n > 0 {
      HostBytesOfZero(n - 1);
    }
  }

  lemma FirstSectorNumbers()
    ensures GenIv(0, 0) == FromHex(0) && GenIv(0, 1) == FromHex(1)
  {
    HostBytesOfZero(8);
    HostBytesOfZero(7);
    ToByteAsNat(1);
    hide HostBytes, Reversed, FromHex;
    LastHex();
    HostBytesOfOne();
    var x, y := GenIv(0, 0), GenIv(0, 1);
    forall i | 0 <= i < BLOCK_LEN ensures x[i] == FromHex(0)[i] && y[i] == FromHex(1)[i] { }
  }

  lemma HostBytesOfOne()
    ensures HostBytes(1, 8)[0] == 1 && forall i :: 0 < i < 8 ==> HostBytes(1, 8)[i] == 0
  {
    ToByteAsNat(1);
    HostBytesOfZero(7);
    assert HostBytes(1, 8)[1..] == HostBytes(0, 7);
  }

  lemma LastHex()
    ensures forall i :: 0 <= i < BLOCK_LEN ==> FromHex(0)[i] == 0
    ensures forall i :: 0 <= i < BLOCK_LEN ==> FromHex(1)[i] == if i == 15 then 1 else 0
  { }

  lemma TestBlock()
    ensures XorBlock(FromHex(0x3e0bb71a15f41c5abe33e70e6ed36e74), FromHex(0x58e2fccefa7e3061367f1d57a4e7455a))
         == FromHex(0x66e94bd4ef8a2c3b884cfa59ca342b2e)
  {
    hide XorBlock;
    SixteenSums(FromHex(0x3e0bb71a15f41c5abe33e70e6ed36e74), FromHex(0x58e2fccefa7e3061367f1d57a4e7455a));
  }

  lemma TestBlockShifted()
    ensures XorBlock(FromHex(0x3e0bb71a15f41c5abe33e70e6ed36e74), FromHex(0x1986a32d9bfa96ec76b4ea00e38beeb9))
         == FromHex(0x278d14378e0e8ab6c8870d0e8d5880cd)
  {
    hide XorBlock;
    SixteenSums(FromHex(0x3e0bb71a15f41c5abe33e70e6ed36e74), FromHex(0x1986a32d9bfa96ec76b4ea00e38beeb9));
  }

  lemma TweakDifference()
    ensures XorBlock(FromHex(0x58e2fccefa7e3061367f1d57a4e7455a), FromHex(0x1986a32d9bfa96ec76b4ea00e38beeb9))
         == FromHex(0x41645fe36184a68d40cbf757476cabe3)
  {
    hide XorBlock;
    SixteenSums(FromHex(0x58e2fccefa7e3061367f1d57a4e7455a), FromHex(0x1986a32d9bfa96ec76b4ea00e38beeb9));
  }

  lemma NotTheDifference()
    ensures FromHex(0x278d14378e0e8ab6c8870d0e8d5880cd) != FromHex(0x803ab111419ff8a11924e031ba57aee4)
  {
    assert FromHex(0x278d14378e0e8ab6c8870d0e8d5880cd)[0] != FromHex(0x803ab111419ff8a11924e031ba57aee4)[0];
  }

  /**
   Under the zero key the block after the end of sector 0 tells its tweak, the encrypted number 1, from the
   one carried on, alpha^1024 times the encrypted number 0.
   */
  lemma ZeroKeysTell()
    ensures Tells(ZeroKeys(), 0, FromHex(0x3e0bb71a15f41c5abe33e70e6ed36e74))
  {
    hide FromHex, Expand, Aes.Encrypt, Alpha, XorBlock, GenIv, Inverse;
    var k, c := ZeroKeys(), FromHex(0x3e0bb71a15f41c5abe33e70e6ed36e74);
    var right, wrong := FromHex(0x58e2fccefa7e3061367f1d57a4e7455a), FromHex(0x1986a32d9bfa96ec76b4ea00e38beeb9);
    FirstSectorNumbers();
    ZeroKeysEncrypt(FromHex(0));
    ZeroKeysEncrypt(FromHex(1));
    ZeroKeysEncrypt(FromHex(0x41645fe36184a68d40cbf757476cabe3));
    EncryptZero();
    EncryptOne();
    EncryptDifference();
    SectorCarriedOn();
    Aes128Inverse(ZeroKeyBytes());
    TestBlock();
    TestBlockShifted();
    TweakDifference();
    NotTheDifference();
    ZeroHex();
    ZeroXor(right);
    InverseAt(k.crypt, FromHex(0));
    InverseAt(k.crypt, FromHex(0x41645fe36184a68d40cbf757476cabe3));
    InverseAt(k.crypt, FromHex(0x278d14378e0e8ab6c8870d0e8d5880cd));
    assert XtsBlock(k.crypt.dec, right, c) == right;
    var y := k.crypt.dec(FromHex(0x278d14378e0e8ab6c8870d0e8d5880cd));
    XorBlockCancels(y, wrong);
  }

  lemma InverseAt(c: Cipher, b: Block)
    requires Inverse(c)
    ensures c.dec(c.enc(b)) == b && c.enc(c.dec(b)) == b
  { }

  // ---- the condition ----

  lemma AesChunkedSuffices(length: nat, offset: nat, size: nat)
    requires length % BLOCK_LEN == 0 && 0 < size && offset + size <= length < OFFSET_LIMIT
    requires Chunked(offset, size)
    ensures AesReadsExactly(length, offset, size)
  {
    hide Chunked, Plain, Read, AesKeys;
    forall cryptKey: seq<byte>, tweakKey: seq<byte>, raw: seq<byte>
      | |cryptKey| == |tweakKey| == KEY_SIZE && |raw| == length
      ensures Read(true, AesKeys(cryptKey, tweakKey), raw, offset, size)
           == Plain(AesKeys(cryptKey, tweakKey), raw)[offset..offset + size]
    {
      ReadIsView(true, AesKeys(cryptKey, tweakKey), raw, offset, size);
    }
  }

  lemma MisalignedEndsRaw(offset: nat, size: nat)
    requires 0 < size
    ensures Misaligned(offset, size) ==> EndsRaw(offset % BLOCK_LEN, size, READ_SIZE)
    ensures Chunked(offset, size) ==> !Misaligned(offset, size)
  {
    SameResidue(offset, size);
  }

  /**
   Under AES every misaligned request fails for some contents, and so does every request that crosses the end
   of sector 0 off the chunk grid; all of those, and the admitted ones, are told apart by the same condition.
   */
  lemma AesReadsExactlyIff(length: nat, offset: nat, size: nat)
    requires length % BLOCK_LEN == 0 && 0 < size && offset + size <= length < OFFSET_LIMIT
    requires Chunked(offset, size) || Misaligned(offset, size) || offset < SECTOR_SIZE
    ensures AesReadsExactly(length, offset, size) <==> Chunked(offset, size)
  {
    hide Chunked, Misaligned, EndsRaw, Straddles, Plain, Read, Inverse, Tells, ShowsZero, Aes128;
    MisalignedEndsRaw(offset, size);
    if Chunked(offset, size) {
      AesChunkedSuffices(length, offset, size);
    } else {
      UnchunkedCases(offset, size);
      var k := ZeroKeys();
      var raw: seq<byte>;
      if EndsRaw(offset % BLOCK_LEN, size, READ_SIZE) {
        ZeroKeysShowZero();
        Aes128Inverse(ZeroKeyBytes());
        raw := WrongIfEndsRaw(k, length, offset, size);
      } else {
        ZeroKeysTell();
        raw := WrongIfStraddles(k, FromHex(0x3e0bb71a15f41c5abe33e70e6ed36e74), length, offset, size);
      }
      assert Read(true, AesKeys(ZeroKeyBytes(), ZeroKeyBytes()), raw, offset, size)
          != Plain(AesKeys(ZeroKeyBytes(), ZeroKeyBytes()), raw)[offset..offset + size];
    }
  }
}
