/**
 What the driver promises, in keys, numbers and names: which byte of a partition stands for which plaintext
 byte, what a request is answered, which path names which partition, and where the raw image holds it.
 */
module DriverSpec {
  import opened Bytes
  import opened BlockCipher
  import opened Tweak

  /** The tweak `steps` blocks after byte `at`: sectors of 0x4000 bytes, numbered from 0. */
  function TweakFrom(tweakKey: seq<byte>, at: nat, steps: nat): Block
    requires |tweakKey| == 32 && at < 0x8000_0000_0000_0000
  {
    Alpha(Aes128(tweakKey).enc(GenIv(0, at / 0x4000)), at % 0x4000 / 16 + steps)
  }

  /** XTS-AES-128 decryption of byte `q` of a partition. */
  function PlainByte(tweakKey: seq<byte>, cryptKey: seq<byte>, c: seq<byte>, q: nat): byte
    requires |tweakKey| == |cryptKey| == 32 && q < |c| < 0x8000_0000_0000_0000 && 16 * (q / 16 + 1) <= |c|
  {
    var t := TweakFrom(tweakKey, q, 0);
    XorBlock(Aes128(cryptKey).dec(XorBlock(BlockAt(c, q / 16), t)), t)[q % 16]
  }

  /**
   Byte `i` of the answer to a read of `size` bytes at `offset`, on any request inside the partition. A size
   below the first skip gives zeros. Whole blocks of the chunks of 0x400 bytes are deciphered, with the tweak
   counted from the sector in which the chunk begins, and what is left over at the end is as stored.
   */
  function AnswerByte(tweakKey: seq<byte>, cryptKey: seq<byte>, c: seq<byte>, offset: nat, size: nat, i: nat): byte
    requires |tweakKey| == |cryptKey| == 32 && i < size && offset + size <= |c| < 0x8000_0000_0000_0000
  {
    hide Aes128, TweakFrom, XorBlock;
    var skip := offset % 16;
    var deciphered := 16 * ((if size < 0x400 then size else skip + size) / 16);
    if size < skip then 0
    else if skip + i >= deciphered then c[offset + i]
    else
      var at := offset - skip + 0x400 * ((skip + i) / 0x400);
      var t := TweakFrom(tweakKey, at, (skip + i) % 0x400 / 16);
      BlockHolds(offset, i, deciphered);
      XorBlock(Aes128(cryptKey).dec(XorBlock(BlockAt(c, (offset + i) / 16), t)), t)[(offset + i) % 16]
  }

  lemma BlockHolds(offset: nat, i: nat, end: nat)
    requires offset % 16 + i < end && end % 16 == 0
    ensures 16 * ((offset + i) / 16 + 1) <= offset - offset % 16 + end
  {
    var at, q := offset - offset % 16, offset % 16 + i;
    assert at == 16 * (offset / 16) && q == 16 * (q / 16) + q % 16 && end == 16 * (end / 16);
    assert offset + i == 16 * (offset / 16 + q / 16) + q % 16;
  }

  ghost predicate Answer(tweakKey: seq<byte>, cryptKey: seq<byte>, c: seq<byte>, offset: nat, bytes: seq<byte>)
    requires |tweakKey| == |cryptKey| == 32 && offset + |bytes| <= |c| < 0x8000_0000_0000_0000
  {
    forall i: nat :: i < |bytes| ==> bytes[i] == AnswerByte(tweakKey, cryptKey, c, offset, |bytes|, i)
  }

  /**
   The bytes of one chunk `c` read at `at`: whole blocks deciphered under the number of the sector `at` lies in,
   from the block of `sectorOffset` on, and the rest as stored.
   */
  ghost predicate Chunk(tweakKey: seq<byte>, cryptKey: seq<byte>, c: seq<byte>, at: nat, sectorOffset: nat,
                        bytes: seq<byte>)
    requires |tweakKey| == |cryptKey| == 32 && at < 0x8000_0000_0000_0000
  {
    && |bytes| == |c| && bytes[16 * (|c| / 16)..] == c[16 * (|c| / 16)..]
    && forall j: nat :: 16 * (j + 1) <= |c| ==>
      var t := Alpha(Aes128(tweakKey).enc(GenIv(0, at / 0x4000)), sectorOffset / 16 + j);
      BlockAt(bytes, j) == XorBlock(Aes128(cryptKey).dec(XorBlock(BlockAt(c, j), t)), t)
  }

  /** The bytes are the plaintext from `offset` on. */
  ghost predicate PlainFrom(tweakKey: seq<byte>, cryptKey: seq<byte>, c: seq<byte>, offset: nat, bytes: seq<byte>)
    requires |tweakKey| == |cryptKey| == 32
    requires |c| % 16 == 0 && offset + |bytes| <= |c| < 0x8000_0000_0000_0000
  {
    forall i: nat :: i < |bytes| ==> bytes[i] == PlainByte(tweakKey, cryptKey, c, offset + i)
  }

  /** The plaintext of `after` is that of `before` with the bytes laid over it at `offset`. */
  ghost predicate PlainWritten(tweakKey: seq<byte>, cryptKey: seq<byte>, before: seq<byte>, after: seq<byte>,
                               offset: nat, bytes: seq<byte>)
    requires |tweakKey| == |cryptKey| == 32 && |before| == |after| < 0x8000_0000_0000_0000 && |before| % 16 == 0
  {
    forall q: nat :: q < |before| ==>
      PlainByte(tweakKey, cryptKey, after, q)
      == if offset <= q < offset + |bytes| then bytes[q - offset] else PlainByte(tweakKey, cryptKey, before, q)
  }

  /** The range ends on a block, starts on one or fills a first chunk, and no chunk runs over a sector end. */
  predicate Admitted(offset: nat, size: nat) {
    && size > 0 && (offset + size) % 16 == 0 && (offset % 16 == 0 || size >= 0x400)
    && ((offset - offset % 16) % 0x400 == 0 || (offset - offset % 16) / 0x4000 == (offset + size - 1) / 0x4000)
  }

  /** How many bytes a request reaches in a partition of `length` bytes. */
  function Reached(length: nat, size: nat, offset: nat): int {
    if size + offset > length then length - offset else size
  }

  /** The result `r` of a read of the partition with ciphertext `c`, and the buffer after it. */
  ghost predicate ReadAs(tweakKey: seq<byte>, cryptKey: seq<byte>, c: seq<byte>, size: nat, offset: nat,
                         r: int, before: seq<byte>, after: seq<byte>)
  {
    && |tweakKey| == |cryptKey| == 32 && |c| % 16 == 0 && |c| < 0x8000_0000_0000_0000
    && if Reached(|c|, size, offset) == 0 then r == -22 && after == before
       else
         && r == Reached(|c|, size, offset) && 0 < r <= |after| == |before| && offset + r <= |c|
         && Answer(tweakKey, cryptKey, c, offset, after[..r]) && after[r..] == before[r..]
         && (Admitted(offset, r) ==> PlainFrom(tweakKey, cryptKey, c, offset, after[..r]))
  }

  /** The result `r` of a write of the bytes in `buf`, and the ciphertext of the partition before and after it. */
  ghost predicate WrittenAs(tweakKey: seq<byte>, cryptKey: seq<byte>, before: seq<byte>, after: seq<byte>,
                            size: nat, offset: nat, r: int, buf: seq<byte>)
  {
    && |tweakKey| == |cryptKey| == 32 && |before| == |after| < 0x8000_0000_0000_0000 && |before| % 16 == 0
    && if Reached(|before|, size, offset) == 0 then r == -22 && after == before
       else
         && r == Reached(|before|, size, offset) && 0 < r <= |buf| && offset + r <= |before|
         && PlainWritten(tweakKey, cryptKey, before, after, offset, buf[..r])
  }

  /** FUSE hands over paths with a leading slash; a bare name is accepted as well. */
  predicate Names(path: string, name: string) {
    path == name || path == "/" + name
  }

  /** The first byte of a partition in the raw image, and the one behind its last. */
  function ImageStart(name: string): nat {
    if name == "PRODINFO" then 0x180_4400
    else if name == "PRODINFOF" then 0x1C0_0000
    else if name == "SAFE" then 0x500_0000
    else if name == "SYSTEM" then 0x900_0000
    else 0xA900_0000
  }

  function ImageEnd(name: string): nat {
    if name == "PRODINFO" then 0x1C0_0000
    else if name == "PRODINFOF" then 0x200_0000
    else if name == "SAFE" then 0x900_0000
    else if name == "SYSTEM" then 0xA900_0000
    else 0x7_2900_0000
  }
}
