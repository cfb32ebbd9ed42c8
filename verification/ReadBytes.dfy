/**
 Every byte nand_read returns, for every offset and size, right or wrong: which bytes go through the cipher,
 under which tweak, and which are handed out as stored or as zero.
 */
module ReadBytes {
  import opened Bytes
  import opened Tweak
  import opened Xtsn
  import opened PlainView
  import opened ReadLoop
  import Division

  /** Byte `q` of a chunk that begins at `at`, deciphered as the sector of the chunk's beginning says. */
  function Deciphered(k: Keys, raw: seq<byte>, at: nat, q: nat): byte
    requires at < OFFSET_LIMIT && 16 * (at / 16 + q / 16 + 1) <= |raw|
  {
    var t := Alpha(k.tweak.enc(GenIv(0, at / 0x4000)), at % 0x4000 / 16 + q / 16);
    XorBlock(k.crypt.dec(XorBlock(BlockAt(raw, at / 16 + q / 16), t)), t)[q % 16]
  }

  // ---- one chunk ----

  lemma WholeBlocks(at: nat, n: nat, q: nat)
    requires at % 16 == 0 && q < 16 * (n / 16)
    ensures 16 * (q / 16 + 1) <= n && 16 * (at / 16 + q / 16 + 1) <= at + n && q == 16 * (q / 16) + q % 16
  { }

  lemma DecipheredInChunk(k: Keys, raw: seq<byte>, at: nat, sectorOffset: nat, n: nat, q: nat)
    requires at % 16 == 0 && n <= READ_SIZE && at + n <= |raw| < OFFSET_LIMIT
    requires sectorOffset < SECTOR_SIZE && sectorOffset / BLOCK_LEN == at % SECTOR_SIZE / BLOCK_LEN
    requires q < 16 * (n / 16)
    ensures 16 * (at / 16 + q / 16 + 1) <= |raw|
    ensures ChunkBuffer(true, k, raw, at, sectorOffset, n)[q] == Deciphered(k, raw, at, q)
  {
    hide XorBlock, Alpha, GenIv, Process, BlockAt;
    WholeBlocks(at, n, q);
    var c, j, lo := raw[at..at + n], q / 16, at / SECTOR_SIZE;
    ProcessClosedForm(false, k.crypt, k.tweak, 0, lo, SECTOR_SIZE, sectorOffset, c, j);
    BlockOfSlice(raw, at, n, j);
    BlockByte(Process(false, k.crypt, k.tweak, 0, lo, SECTOR_SIZE, sectorOffset, c), j, q % 16);
  }

  lemma StoredInChunk(encrypted: bool, k: Keys, raw: seq<byte>, at: nat, sectorOffset: nat, n: nat, q: nat)
    requires n <= READ_SIZE && at + n <= |raw| < OFFSET_LIMIT && sectorOffset < SECTOR_SIZE
    requires (encrypted ==> 16 * (n / 16) <= q) && q < READ_SIZE
    ensures ChunkBuffer(encrypted, k, raw, at, sectorOffset, n)[q] == if q < n then raw[at + q] else 0
  { }

  /** Less than a block is handed out as stored. */
  lemma ShortChunk(encrypted: bool, k: Keys, raw: seq<byte>, at: nat, sectorOffset: nat, n: nat, blockSize: nat, i: nat)
    requires LoopState(raw, at, sectorOffset, 0, n, blockSize) && i < n < 16 && n <= blockSize
    ensures ReadFrom(encrypted, k, raw, at, sectorOffset, 0, n, blockSize)[i] == raw[at + i]
  {
    hide ChunkBuffer, NextSectorOffset;
    ReadFromOnce(encrypted, k, raw, at, sectorOffset, 0, n, blockSize);
    StoredInChunk(encrypted, k, raw, at, sectorOffset, n, i);
  }

  // ---- the loop from a chunk on ----

  /** What the loop makes of byte `i` of `n` bytes from `at` on. */
  function LoopByte(encrypted: bool, k: Keys, raw: seq<byte>, at: nat, n: nat, i: nat): byte
    requires at % 16 == 0 && i < n && at + n <= |raw| < OFFSET_LIMIT
  {
    if encrypted && i < 16 * (n / 16) then
      WholeBlocks(at, n, i);
      ChunkOf(at, i);
      Deciphered(k, raw, at + 0x400 * (i / 0x400), i % 0x400)
    else raw[at + i]
  }

  lemma ChunkOf(at: nat, i: nat)
    requires at % 16 == 0
    ensures var c, q := at + 0x400 * (i / 0x400), i % 0x400;
            c % 16 == 0 && c + q == at + i && c / 16 + q / 16 == at / 16 + i / 16
  {
    var j, q := i / 0x400, i % 0x400;
    assert i == 0x400 * j + q;
    Division.DivUnique(at + 0x400 * j, 16, at / 16 + 64 * j, 0);
    Division.DivUnique(i, 16, 64 * j + q / 16, q % 16);
  }

  lemma ChunkOn(n: nat, i: nat)
    requires 0x400 <= i < n
    ensures 16 * ((n - 0x400) / 16) == 16 * (n / 16) - 0x400
    ensures i / 0x400 == (i - 0x400) / 0x400 + 1 && i % 0x400 == (i - 0x400) % 0x400
  {
    Division.DivUnique(n, 16, (n - 0x400) / 16 + 64, (n - 0x400) % 16);
    Division.DivUnique(i, 0x400, (i - 0x400) / 0x400 + 1, (i - 0x400) % 0x400);
  }

  lemma LoopByteOn(encrypted: bool, k: Keys, raw: seq<byte>, at: nat, n: nat, i: nat)
    requires at % 16 == 0 && 0x400 <= i < n && at + n <= |raw| < OFFSET_LIMIT
    ensures (at + 0x400) % 16 == 0
    ensures LoopByte(encrypted, k, raw, at, n, i) == LoopByte(encrypted, k, raw, at + 0x400, n - 0x400, i - 0x400)
  {
    hide Deciphered;
    Division.AddBlocks(at, 0x400);
    ChunkOn(n, i);
  }

  lemma FirstChunk(encrypted: bool, k: Keys, raw: seq<byte>, at: nat, sectorOffset: nat, n: nat, q: nat)
    requires at % 16 == 0 && q < n && q < READ_SIZE && at + n <= |raw| < OFFSET_LIMIT
    requires sectorOffset < SECTOR_SIZE && sectorOffset / BLOCK_LEN == at % SECTOR_SIZE / BLOCK_LEN
    ensures var m := if READ_SIZE > n then n else READ_SIZE;
            ChunkBuffer(encrypted, k, raw, at, sectorOffset, m)[q] == LoopByte(encrypted, k, raw, at, n, q)
  {
    hide Deciphered, ChunkBuffer;
    var m := if READ_SIZE > n then n else READ_SIZE;
    Division.DivUnique(q, 0x400, 0, q);
    InFirst(n, m, q);
    if encrypted && q < 16 * (n / 16) {
      DecipheredInChunk(k, raw, at, sectorOffset, m, q);
    } else {
      StoredInChunk(encrypted, k, raw, at, sectorOffset, m, q);
    }
  }

  lemma InFirst(n: nat, m: nat, q: nat)
    requires m == (if 0x400 > n then n else 0x400) && q < m
    ensures q < 16 * (n / 16) <==> q < 16 * (m / 16)
  { }

  lemma {:induction false} LoopBytes(encrypted: bool, k: Keys, raw: seq<byte>, at: nat, n: nat, i: nat)
    requires at % 16 == 0 && i < n && LoopState(raw, at, at % SECTOR_SIZE, 0, n, READ_SIZE)
    ensures ReadFrom(encrypted, k, raw, at, at % SECTOR_SIZE, 0, n, READ_SIZE)[i]
         == LoopByte(encrypted, k, raw, at, n, i)
    decreases n
  {
    hide LoopByte, ChunkBuffer, NextSectorOffset, ReadFrom;
    ReadFromOnce(encrypted, k, raw, at, at % SECTOR_SIZE, 0, n, READ_SIZE);
    if i < READ_SIZE {
      FirstChunk(encrypted, k, raw, at, at % SECTOR_SIZE, n, i);
    } else {
      NextAligned(at, READ_SIZE);
      LoopByteOn(encrypted, k, raw, at, n, i);
      LoopBytes(encrypted, k, raw, at + READ_SIZE, n - READ_SIZE, i - READ_SIZE);
    }
  }

  lemma NextAligned(at: nat, n: nat)
    requires at % 16 == 0 && n % 16 == 0
    ensures (at + n) % 16 == 0 && NextSectorOffset(at % SECTOR_SIZE, n) == (at + n) % SECTOR_SIZE
  {
    Division.AddBlocks(at, n);
    SectorSum(at, n);
  }

  lemma SectorSum(at: nat, n: nat)
    ensures (at % SECTOR_SIZE + n) % SECTOR_SIZE == (at + n) % SECTOR_SIZE
  {
    var r := at % SECTOR_SIZE + n;
    Division.AddMultiple(r, SECTOR_SIZE, at / SECTOR_SIZE);
  }

  // ---- the whole call ----

  /** How far a request goes through the cipher, counted from the block it begins in. */
  function CipherEnd(offset: nat, size: nat): nat {
    16 * ((if size < 0x400 then size else offset % 16 + size) / 16)
  }

  /** Byte `i` of the answer to a request. */
  function ReadByte(encrypted: bool, k: Keys, raw: seq<byte>, offset: nat, size: nat, i: nat): byte
    requires i < size && offset + size <= |raw| < OFFSET_LIMIT
  {
    if size < offset % 16 then 0
    else if encrypted && offset % 16 + i < CipherEnd(offset, size) then
      CipherInside(offset, size, i);
      Deciphered(k, raw, offset - offset % 16 + 0x400 * ((offset % 16 + i) / 0x400), (offset % 16 + i) % 0x400)
    else raw[offset + i]
  }

  lemma CipherInside(offset: nat, size: nat, i: nat)
    requires offset % 16 + i < CipherEnd(offset, size)
    ensures var at, q := offset - offset % 16 + 0x400 * ((offset % 16 + i) / 0x400), (offset % 16 + i) % 0x400;
            16 * (at / 16 + q / 16 + 1) <= offset + size && at + q == offset + i
  {
    var skip, at := offset % 16, offset - offset % 16;
    BlockSplit(offset);
    WholeBlocks(at, CipherEnd(offset, size), skip + i);
    ChunkOf(at, skip + i);
  }

  /** A request that fills a first chunk or starts on a block is one run of the loop from its first block. */
  lemma LongRead(encrypted: bool, k: Keys, raw: seq<byte>, offset: nat, size: nat, i: nat)
    requires i < size && offset + size <= |raw| < OFFSET_LIMIT && (offset % 16 == 0 || size >= 0x400)
    ensures (offset - offset % 16) % 16 == 0
    ensures Read(encrypted, k, raw, offset, size)[i]
         == LoopByte(encrypted, k, raw, offset - offset % 16, offset % 16 + size, offset % 16 + i)
  {
    hide LoopByte, ChunkBuffer, ReadFrom;
    BlockSplit(offset);
    ReadStarts(encrypted, k, raw, offset, size);
    var skip, at := offset % 16, offset - offset % 16;
    if skip == 0 {
      LoopBytes(encrypted, k, raw, at, size, i);
    } else {
      SkippedRead(encrypted, k, raw, at, skip, size, i);
    }
  }

  lemma SkippedRead(encrypted: bool, k: Keys, raw: seq<byte>, at: nat, skip: nat, size: nat, i: nat)
    requires at % 16 == 0 && 0 < skip < 16 && i < size && size >= 0x400
    requires LoopState(raw, at, at % SECTOR_SIZE + skip, skip, size, READ_SIZE)
    ensures ReadFrom(encrypted, k, raw, at, at % SECTOR_SIZE + skip, skip, size, READ_SIZE)[i]
         == LoopByte(encrypted, k, raw, at, skip + size, skip + i)
  {
    hide LoopByte, ChunkBuffer, ReadFrom, NextSectorOffset;
    ReadFromOnce(encrypted, k, raw, at, at % SECTOR_SIZE + skip, skip, size, READ_SIZE);
    SameBlockOffset(at, at % SECTOR_SIZE + skip, skip);
    assert CopySize(size, READ_SIZE, skip) == READ_SIZE - skip;
    hide CopySize;
    if skip + i < READ_SIZE {
      FirstChunk(encrypted, k, raw, at, at % SECTOR_SIZE + skip, skip + size, skip + i);
    } else {
      AfterSkip(at, skip, READ_SIZE);
      LoopByteOn(encrypted, k, raw, at, skip + size, skip + i);
      LoopBytes(encrypted, k, raw, at + READ_SIZE, skip + size - READ_SIZE, skip + i - READ_SIZE);
    }
  }

  lemma AfterSkip(at: nat, skip: nat, n: nat)
    requires at % 16 == 0 && n % 16 == 0 && skip <= n
    ensures (at + n) % 16 == 0
    ensures NextSectorOffset(at % SECTOR_SIZE + skip, n - skip) == (at + n) % SECTOR_SIZE
  {
    Division.AddBlocks(at, n);
    SectorSum(at, n);
  }

  /** A shorter request that starts inside a block: one chunk of its size, and a second one for what is missing. */
  lemma ShortLoop(encrypted: bool, k: Keys, raw: seq<byte>, at: nat, so: nat, skip: nat, size: nat, i: nat)
    requires at % 16 == 0 && so == at % SECTOR_SIZE + skip && 0 < skip < 16 && i < size < 0x400
    requires LoopState(raw, at, so, skip, size, READ_SIZE) && so / BLOCK_LEN == at % SECTOR_SIZE / BLOCK_LEN
    ensures skip + i < 16 * (size / 16) ==> 16 * (at / 16 + (skip + i) / 16 + 1) <= |raw|
    ensures ReadFrom(encrypted, k, raw, at, so, skip, size, READ_SIZE)[i]
         == if size < skip then 0
            else if encrypted && skip + i < 16 * (size / 16) then Deciphered(k, raw, at, skip + i)
            else raw[at + skip + i]
  {
    hide Deciphered, ChunkBuffer, ReadFrom, NextSectorOffset;
    ReadFromOnce(encrypted, k, raw, at, so, skip, size, READ_SIZE);
    var copied := CopySize(size, size, skip);
    assert copied == if size < skip then size else size - skip;
    hide CopySize;
    WholeBlocksEnd(size);
    if i >= copied {
      ShortChunk(encrypted, k, raw, at + size, NextSectorOffset(so, copied), size - copied, size, i - copied);
    } else if skip + i < 16 * (size / 16) {
      WholeBlocks(at, size, skip + i);
      if encrypted {
        DecipheredInChunk(k, raw, at, so, size, skip + i);
      } else {
        StoredInChunk(encrypted, k, raw, at, so, size, skip + i);
      }
    } else {
      StoredInChunk(encrypted, k, raw, at, so, size, skip + i);
    }
  }

  lemma WholeBlocksEnd(n: nat)
    ensures 16 * (n / 16) <= n
  { }

  lemma ShortRead(encrypted: bool, k: Keys, raw: seq<byte>, offset: nat, size: nat, i: nat)
    requires i < size < 0x400 && offset + size <= |raw| < OFFSET_LIMIT && offset % 16 > 0
    ensures Read(encrypted, k, raw, offset, size)[i] == ReadByte(encrypted, k, raw, offset, size, i)
  {
    hide Deciphered, ReadFrom, CipherEnd, LoopState;
    BlockSplit(offset);
    ReadStarts(encrypted, k, raw, offset, size);
    ShortEnd(offset, size);
    var skip, at := offset % 16, offset - offset % 16;
    SameBlockOffset(at, at % SECTOR_SIZE + skip, skip);
    ShortLoop(encrypted, k, raw, at, at % SECTOR_SIZE + skip, skip, size, i);
    if skip + i < 16 * (size / 16) {
      Division.DivUnique(skip + i, 0x400, 0, skip + i);
    }
  }

  lemma ShortEnd(offset: nat, size: nat)
    requires size < 0x400
    ensures CipherEnd(offset, size) == 16 * (size / 16) <= size
  { }

  /** Every byte of every answer. */
  lemma ReadBytesAre(encrypted: bool, k: Keys, raw: seq<byte>, offset: nat, size: nat, i: nat)
    requires i < size && offset + size <= |raw| < OFFSET_LIMIT
    ensures Read(encrypted, k, raw, offset, size)[i] == ReadByte(encrypted, k, raw, offset, size, i)
  {
    hide Read, Deciphered;
    if offset % 16 == 0 || size >= 0x400 {
      LongRead(encrypted, k, raw, offset, size, i);
    } else {
      ShortRead(encrypted, k, raw, offset, size, i);
    }
  }

  // ---- where it is the plaintext ----

  /** Up to the end of its sector a chunk deciphers to the plaintext. */
  lemma DecipheredIsPlain(k: Keys, raw: seq<byte>, at: nat, q: nat)
    requires at % 16 == 0 && |raw| % BLOCK_LEN == 0 && |raw| < OFFSET_LIMIT && at + q < |raw|
    requires at % SECTOR_SIZE + q < SECTOR_SIZE
    ensures 16 * (at / 16 + q / 16 + 1) <= |raw|
    ensures Deciphered(k, raw, at, q) == Plain(k, raw)[at + q]
  {
    hide XorBlock, Alpha, GenIv, BlockAt, BlockTweak;
    var b, j := at / 16, q / 16;
    BlockOfSum(at, q, |raw|);
    Division.BlockThenSector(at);
    TweakAtBlock(k, at, q);
    PlainAt(k, raw, b + j);
    BlockByte(Plain(k, raw), b + j, q % 16);
  }

  lemma BlockOfSum(at: nat, q: nat, length: nat)
    requires at % 16 == 0 && length % 16 == 0 && at + q < length
    ensures 16 * (at / 16 + q / 16 + 1) <= length && 16 * (at / 16 + q / 16) + q % 16 == at + q
  {
    var a, j, m := at / 16, q / 16, length / 16;
    assert at == 16 * a && q == 16 * j + q % 16 && length == 16 * m;
    assert a + j < m;
  }

  lemma TweakAtBlock(k: Keys, at: nat, q: nat)
    requires at % 16 == 0 && at < OFFSET_LIMIT && at % SECTOR_SIZE + q < SECTOR_SIZE
    ensures BlockTweak(k, at / 16 + q / 16) == Alpha(k.tweak.enc(GenIv(0, at / 0x4000)), at % 0x4000 / 16 + q / 16)
  {
    hide Alpha, GenIv;
    Division.BlockThenSector(at);
    var s, r := at / SECTOR_SIZE, at % SECTOR_SIZE;
    assert at == 16 * (at / 16) && r == 16 * (r / 16) && q == 16 * (q / 16) + q % 16;
    Division.DivUnique(at / 16 + q / 16, SECTOR_BLOCKS, s, r / 16 + q / 16);
  }

  /**
   A request from a block boundary that stays in one sector returns the plaintext in all its whole blocks,
   whatever its size.
   */
  lemma WholeBlocksArePlain(k: Keys, raw: seq<byte>, offset: nat, size: nat, i: nat)
    requires |raw| % BLOCK_LEN == 0 && offset + size <= |raw| < OFFSET_LIMIT && offset % BLOCK_LEN == 0
    requires i < BLOCK_LEN * (size / BLOCK_LEN) && offset / SECTOR_SIZE == (offset + size - 1) / SECTOR_SIZE
    ensures Read(true, k, raw, offset, size)[i] == Plain(k, raw)[offset + i]
  {
    hide Read, Deciphered, Plain;
    ReadBytesAre(true, k, raw, offset, size, i);
    ChunkOf(offset, i);
    InSameSector(offset, size, i);
    DecipheredIsPlain(k, raw, offset + 0x400 * (i / 0x400), i % 0x400);
  }

  lemma InSameSector(offset: nat, size: nat, i: nat)
    requires i < size && offset / SECTOR_SIZE == (offset + size - 1) / SECTOR_SIZE
    ensures (offset + 0x400 * (i / 0x400)) % SECTOR_SIZE + i % 0x400 < SECTOR_SIZE
  {
    var s, at, q := offset / SECTOR_SIZE, offset + 0x400 * (i / 0x400), i % 0x400;
    assert at + q == offset + i;
    assert SECTOR_SIZE * s <= at <= offset + i < SECTOR_SIZE * (s + 1);
    Division.DivUnique(at, SECTOR_SIZE, s, at - SECTOR_SIZE * s);
  }
}
