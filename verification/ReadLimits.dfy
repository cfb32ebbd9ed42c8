/**
 The exact condition under which nand_read returns the decrypted view: where it fails, contents and keys that
 show it, for any block cipher.
 */
module ReadLimits {
  import opened Bytes
  import opened BlockCipher
  import opened Tweak
  import opened Xtsn
  import opened PlainView
  import opened ReadLoop
  import Division

  // ---- misaligned requests ----

  /** The bytes after the last whole block are left as read. */
  lemma TailAsRead(k: Keys, at: nat, sectorOffset: nat, c: seq<byte>, i: nat)
    requires at < OFFSET_LIMIT && sectorOffset < SECTOR_SIZE && BLOCK_LEN * (|c| / BLOCK_LEN) <= i < |c|
    ensures Decrypted(true, k, at, sectorOffset, c)[i] == c[i]
  { }

  /** States from which the last byte copied out never goes through the cipher. */
  ghost predicate EndsRaw(skip: nat, remaining: nat, blockSize: nat) {
    if skip == 0 then
      remaining < BLOCK_LEN || (blockSize == READ_SIZE && remaining % BLOCK_LEN != 0)
    else
      remaining < READ_SIZE || (remaining + skip) % BLOCK_LEN != 0
  }

  lemma EndsRawStep(skip: nat, remaining: nat, blockSize: nat, n: nat, copied: nat)
    requires remaining > 0 && EndsRaw(skip, remaining, blockSize) && skip < BLOCK_LEN
    requires 0 < blockSize <= READ_SIZE && (skip > 0 ==> blockSize == READ_SIZE)
    requires n == (if blockSize > remaining then remaining else blockSize) && copied == CopySize(remaining, n, skip)
    ensures copied < remaining ==> EndsRaw(0, remaining - copied, n) && n == skip + copied && remaining >= skip
    ensures copied == remaining ==> skip + copied - 1 >= BLOCK_LEN * (n / BLOCK_LEN)
    ensures copied == remaining ==> (remaining < skip <==> skip + copied - 1 >= n)
  { }

  /** The last byte copied out is the stored one, or zero when the request ends before its own first skip. */
  lemma {:induction false} LastByteRaw(k: Keys, raw: seq<byte>,
                                       at: nat, sectorOffset: nat, skip: nat, remaining: nat, blockSize: nat)
    requires LoopState(raw, at, sectorOffset, skip, remaining, blockSize)
    requires remaining > 0 && EndsRaw(skip, remaining, blockSize)
    ensures at + skip + remaining <= |raw|
    ensures ReadFrom(true, k, raw, at, sectorOffset, skip, remaining, blockSize)[remaining - 1]
         == if remaining < skip then 0 else raw[at + skip + remaining - 1]
    decreases remaining, skip
  {
    hide EndsRaw, NextSectorOffset, ChunkBuffer, CopySize, ReadFrom;
    var n := if blockSize > remaining then remaining else blockSize;
    var copied := CopySize(remaining, n, skip);
    LoopStep(raw, at, sectorOffset, skip, remaining, blockSize);
    EndsRawStep(skip, remaining, blockSize, n, copied);
    LastByteSplit(k, raw, at, sectorOffset, skip, remaining, blockSize);
    if copied < remaining {
      LastByteRaw(k, raw, at + n, NextSectorOffset(sectorOffset, copied), 0, remaining - copied, n);
    } else {
      RawInChunk(k, raw, at, sectorOffset, n, skip + copied - 1);
    }
  }

  /** The last byte copied out comes from this turn or from the rest of the loop. */
  lemma LastByteSplit(k: Keys, raw: seq<byte>, at: nat, sectorOffset: nat, skip: nat, remaining: nat, blockSize: nat)
    requires LoopState(raw, at, sectorOffset, skip, remaining, blockSize) && remaining > 0
    ensures var n := if blockSize > remaining then remaining else blockSize;
            var copied := CopySize(remaining, n, skip);
            && copied <= remaining && skip + copied <= READ_SIZE && at + n <= |raw|
            && LoopState(raw, at + n, NextSectorOffset(sectorOffset, copied), 0, remaining - copied, n)
            && ReadFrom(true, k, raw, at, sectorOffset, skip, remaining, blockSize)[remaining - 1]
            == if copied < remaining
               then ReadFrom(true, k, raw, at + n, NextSectorOffset(sectorOffset, copied), 0, remaining - copied, n)
                      [remaining - copied - 1]
               else ChunkBuffer(true, k, raw, at, sectorOffset, n)[skip + copied - 1]
  {
    hide ChunkBuffer, NextSectorOffset, LoopState, CopySize;
    LoopStep(raw, at, sectorOffset, skip, remaining, blockSize);
  }

  lemma RawInChunk(k: Keys, raw: seq<byte>, at: nat, sectorOffset: nat, n: nat, i: nat)
    requires n <= READ_SIZE && at + n <= |raw| < OFFSET_LIMIT && sectorOffset < SECTOR_SIZE
    requires BLOCK_LEN * (n / BLOCK_LEN) <= i < READ_SIZE
    ensures ChunkBuffer(true, k, raw, at, sectorOffset, n)[i] == if i < n then raw[at + i] else 0
  {
    hide Decrypted;
    if i < n {
      TailAsRead(k, at, sectorOffset, raw[at..at + n], i);
    }
  }

  /** The ciphertext of the zero block has no zero byte. */
  ghost predicate ShowsZero(c: Cipher) {
    forall i :: 0 <= i < BLOCK_LEN ==> c.enc(ZERO_BLOCK)[i] != 0
  }

  /** Then there is, under any tweak, a ciphertext block whose plaintext differs from it in every byte. */
  lemma NoFixedByte(k: Keys, b: nat) returns (c: Block)
    requires Inverse(k.crypt) && ShowsZero(k.crypt)
    ensures forall i :: 0 <= i < BLOCK_LEN ==> PlainBlock(k, b, c)[i] != c[i]
  {
    hide BlockTweak, XorBlock, Xor;
    var t, e := BlockTweak(k, b), k.crypt.enc(ZERO_BLOCK);
    c := XorBlock(e, t);
    XorBlockCancels(e, t);
    ZeroXor(t);
    assert PlainBlock(k, b, c) == t;
    forall i | 0 <= i < BLOCK_LEN ensures t[i] != c[i] {
      XorBlockAt(e, t, i);
      XorMoves(e[i], t[i]);
    }
  }

  lemma XorMoves(x: byte, y: byte)
    requires x != 0
    ensures Xor(x, y) != y
  { }

  lemma ZeroXor(v: Block)
    ensures XorBlock(ZERO_BLOCK, v) == v
  {
    assert forall i :: 0 <= i < BLOCK_LEN ==> XorBlock(ZERO_BLOCK, v)[i] == v[i];
  }

  const ONES: Block := [0xff, 0xff, 0xff, 0xff, 0xff, 0xff, 0xff, 0xff, 0xff, 0xff, 0xff, 0xff, 0xff, 0xff, 0xff, 0xff]

  lemma OnesNotZero(i: nat)
    requires i < BLOCK_LEN
    ensures ONES[i] == 0xff
  { }

  /** A request that ends so returns something else than the plaintext, for some contents, under any such keys. */
  lemma WrongIfEndsRaw(k: Keys, length: nat, offset: nat, size: nat) returns (raw: seq<byte>)
    requires Inverse(k.crypt) && ShowsZero(k.crypt)
    requires length % BLOCK_LEN == 0 && 0 < size && offset + size <= length < OFFSET_LIMIT
    requires EndsRaw(offset % BLOCK_LEN, size, READ_SIZE)
    ensures |raw| == length && Read(true, k, raw, offset, size) != Plain(k, raw)[offset..offset + size]
  {
    hide EndsRaw, Plain, PlainBlock, SealedBlock, ReadFrom, Inverse, BlockAt, ShowsZero, Put;
    var last := offset + size - 1;
    var b, m := last / BLOCK_LEN, last % BLOCK_LEN;
    WholeBlock(length, last);
    SealedThenPlain(k, b, ONES);
    OnesNotZero(m);
    var c := NoFixedByte(k, b);
    if size < offset % BLOCK_LEN {
      c := SealedBlock(k, b, ONES);
    }
    raw := Put(Zeros(length), BLOCK_LEN * b, c);
    BlockOfPut(Zeros(length), b, c, b);
    PlainAt(k, raw, b);
    BlockByte(raw, b, m);
    BlockByte(Plain(k, raw), b, m);
    ReadStarts(true, k, raw, offset, size);
    LastByteRaw(k, raw, offset - offset % BLOCK_LEN, offset % SECTOR_SIZE, offset % BLOCK_LEN, size, READ_SIZE);
    assert Plain(k, raw)[offset..offset + size][size - 1] == Plain(k, raw)[last];
  }

  lemma WholeBlock(length: nat, last: nat)
    requires length % BLOCK_LEN == 0 && last < length
    ensures BLOCK_LEN * (last / BLOCK_LEN + 1) <= length && last == BLOCK_LEN * (last / BLOCK_LEN) + last % BLOCK_LEN
  {
    assert length == BLOCK_LEN * (length / BLOCK_LEN);
  }

  // ---- requests that cross a sector boundary inside a chunk ----

  /** Under these keys the block after the end of sector `s` tells the right tweak from the one carried on. */
  ghost predicate Tells(k: Keys, s: u64, c: Block)
    requires s < MAX64
  {
    XtsBlock(k.crypt.dec, Alpha(k.tweak.enc(GenIv(0, s)), SECTOR_BLOCKS), c)
    != XtsBlock(k.crypt.dec, k.tweak.enc(GenIv(0, s + 1)), c)
  }

  /** Blocks `b` to `b + m` run over the end of sector `s`, and `sectorOffset` lies in the first of them. */
  predicate RunsOver(s: nat, b: nat, m: nat, sectorOffset: nat) {
    && SECTOR_BLOCKS * s <= b < SECTOR_BLOCKS * (s + 1) < b + m && BLOCK_LEN * m <= READ_SIZE
    && 0 <= sectorOffset - BLOCK_LEN * (b - SECTOR_BLOCKS * s) < BLOCK_LEN
  }

  /** In a chunk that runs over the end of sector `s`, the first block past the end then comes out wrong. */
  lemma WrongPastSector(k: Keys, s: u64, raw: seq<byte>, b: nat, m: nat, sectorOffset: nat) returns (j: nat)
    requires |raw| < OFFSET_LIMIT && |raw| % BLOCK_LEN == 0
    requires BLOCK_LEN * (b + m) <= |raw| && RunsOver(s, b, m, sectorOffset)
    requires Tells(k, s, BlockAt(raw, SECTOR_BLOCKS * (s + 1)))
    ensures 0 < j < m
    ensures BlockAt(Decrypted(true, k, BLOCK_LEN * b, sectorOffset, raw[BLOCK_LEN * b..BLOCK_LEN * (b + m)]), j)
         != BlockAt(Plain(k, raw), b + j)
  {
    hide XtsBlock, Process, Plain, PlainBlock, Alpha, GenIv, BlockTweak, BlockAt;
    j := SECTOR_BLOCKS * (s + 1) - b;
    var at, n := BLOCK_LEN * b, BLOCK_LEN * m;
    SectorOfBlock(s, b, sectorOffset);
    BlockOfSlice(raw, at, n, j);
    ProcessClosedForm(false, k.crypt, k.tweak, 0, s, SECTOR_SIZE, sectorOffset, raw[at..at + n], j);
    PlainAt(k, raw, b + j);
    FirstBlockTweak(k, s + 1);
    DecryptIsPlainBlock(k, b + j, BlockAt(raw, b + j));
  }

  lemma SectorOfBlock(s: nat, b: nat, sectorOffset: nat)
    requires SECTOR_BLOCKS * s <= b < SECTOR_BLOCKS * (s + 1)
    requires 0 <= sectorOffset - BLOCK_LEN * (b - SECTOR_BLOCKS * s) < BLOCK_LEN
    ensures BLOCK_LEN * b / SECTOR_SIZE == s && (BLOCK_LEN * b) % BLOCK_LEN == 0 && BLOCK_LEN * b / BLOCK_LEN == b
    ensures sectorOffset / BLOCK_LEN == b - SECTOR_BLOCKS * s && sectorOffset < SECTOR_SIZE
  {
    var r := BLOCK_LEN * (b - SECTOR_BLOCKS * s);
    Division.DivUnique(BLOCK_LEN * b, SECTOR_SIZE, s, r);
    Division.DivUnique(BLOCK_LEN * b, BLOCK_LEN, b, 0);
    Division.DivUnique(sectorOffset, BLOCK_LEN, b - SECTOR_BLOCKS * s, sectorOffset - r);
  }

  /** A chunk of whole blocks that runs over the end of a sector, in blocks. */
  lemma InBlocks(s: nat, at: nat, n: nat, sectorOffset: nat)
    requires at % BLOCK_LEN == 0 && n % BLOCK_LEN == 0 && n <= READ_SIZE
    requires s == at / SECTOR_SIZE && at + n > SECTOR_SIZE * (s + 1)
    requires sectorOffset / BLOCK_LEN == at % SECTOR_SIZE / BLOCK_LEN
    ensures at == BLOCK_LEN * (at / BLOCK_LEN) && n == BLOCK_LEN * (n / BLOCK_LEN)
    ensures RunsOver(s, at / BLOCK_LEN, n / BLOCK_LEN, sectorOffset)
  {
    Division.BlockThenSector(at);
    var b, m, r, q := at / BLOCK_LEN, n / BLOCK_LEN, at % SECTOR_SIZE, sectorOffset / BLOCK_LEN;
    assert at == BLOCK_LEN * b && n == BLOCK_LEN * m && at == SECTOR_SIZE * s + r;
    assert r == BLOCK_LEN * q && sectorOffset == BLOCK_LEN * q + sectorOffset % BLOCK_LEN;
    assert b == SECTOR_BLOCKS * s + q;
  }

  lemma FirstBlockTweak(k: Keys, s: u64)
    ensures BlockTweak(k, SECTOR_BLOCKS * s) == k.tweak.enc(GenIv(0, s))
  {
    hide GenIv;
    Division.DivUnique(SECTOR_BLOCKS * s, SECTOR_BLOCKS, s, 0);
  }

  /** A loop state in step except that its range runs on past the end of sector `s`, off the chunk grid. */
  ghost predicate Straddles(s: u64, at: nat, sectorOffset: nat, skip: nat, remaining: nat) {
    && at % BLOCK_LEN == 0 && sectorOffset == at % SECTOR_SIZE + skip && skip < BLOCK_LEN && remaining > 0
    && (at + skip + remaining) % BLOCK_LEN == 0 && (skip > 0 ==> remaining >= READ_SIZE)
    && at % READ_SIZE != 0 && at / SECTOR_SIZE == s && at + skip + remaining > SECTOR_SIZE * (s + 1)
  }

  /** Off the chunk grid, a whole chunk that stays in the sector stops short of its end. */
  lemma OffGrid(s: nat, at: nat)
    requires at % READ_SIZE != 0 && at / SECTOR_SIZE == s && at + READ_SIZE <= SECTOR_SIZE * (s + 1)
    ensures (at + READ_SIZE) % READ_SIZE != 0 && (at + READ_SIZE) / SECTOR_SIZE == s
  {
    var q, r := at / READ_SIZE, at % READ_SIZE;
    assert at == READ_SIZE * q + r && 0 < r < READ_SIZE;
    assert SECTOR_SIZE * (s + 1) == READ_SIZE * (16 * (s + 1));
    assert q + 1 < 16 * (s + 1);
    assert at + READ_SIZE == READ_SIZE * (q + 1) + r;
    assert SECTOR_SIZE * s <= at + READ_SIZE < SECTOR_SIZE * (s + 1);
  }

  lemma StraddleStep(s: u64, at: nat, sectorOffset: nat, skip: nat, remaining: nat, n: nat, copied: nat)
    requires Straddles(s, at, sectorOffset, skip, remaining) && sectorOffset < SECTOR_SIZE
    requires n == (if READ_SIZE > remaining then remaining else READ_SIZE) && copied == CopySize(remaining, n, skip)
    ensures at % BLOCK_LEN == 0 && at / SECTOR_SIZE == s
    ensures n % BLOCK_LEN == 0 && skip < n && copied == n - skip <= remaining
    ensures sectorOffset / BLOCK_LEN == at % SECTOR_SIZE / BLOCK_LEN
    ensures at + n <= SECTOR_SIZE * (s + 1) ==>
      n == READ_SIZE && Straddles(s, at + n, NextSectorOffset(sectorOffset, copied), 0, remaining - copied)
  {
    hide NextSectorOffset;
    Division.AddRest(at + skip, remaining);
    Division.AddBlocks(remaining, at);
    SameBlockOffset(at, sectorOffset, skip);
    if at + n <= SECTOR_SIZE * (s + 1) {
      assert at + n < at + skip + remaining;
      StraddleNext(s, at, skip, remaining);
      NextOffset(at, sectorOffset, skip, n);
    }
  }

  lemma StraddleNext(s: nat, at: nat, skip: nat, remaining: nat)
    requires at % BLOCK_LEN == 0 && at % READ_SIZE != 0 && at / SECTOR_SIZE == s
    requires at + READ_SIZE <= SECTOR_SIZE * (s + 1) && skip <= READ_SIZE <= skip + remaining
    ensures (at + READ_SIZE) % BLOCK_LEN == 0 && at % SECTOR_SIZE + READ_SIZE <= SECTOR_SIZE
    ensures (at + READ_SIZE) % READ_SIZE != 0 && (at + READ_SIZE) / SECTOR_SIZE == s
  {
    OffGrid(s, at);
    Division.AddBlocks(at, READ_SIZE);
  }

  lemma {:induction false} WrongByte(k: Keys, s: u64, raw: seq<byte>,
                                     at: nat, sectorOffset: nat, skip: nat, remaining: nat)
      returns (i: nat)
    requires |raw| % BLOCK_LEN == 0
    requires LoopState(raw, at, sectorOffset, skip, remaining, READ_SIZE)
    requires Straddles(s, at, sectorOffset, skip, remaining)
    requires BLOCK_LEN * (SECTOR_BLOCKS * (s + 1) + 1) <= |raw| && Tells(k, s, BlockAt(raw, SECTOR_BLOCKS * (s + 1)))
    ensures i < remaining && at + skip + i < |raw|
    ensures ReadFrom(true, k, raw, at, sectorOffset, skip, remaining, READ_SIZE)[i] != Plain(k, raw)[at + skip + i]
    decreases remaining
  {
    hide Decrypted, Plain, NextSectorOffset, Straddles, CopySize, Tells, ReadFrom, ChunkBuffer;
    var n := if READ_SIZE > remaining then remaining else READ_SIZE;
    var copied := CopySize(remaining, n, skip);
    StraddleStep(s, at, sectorOffset, skip, remaining, n, copied);
    ReadFromOnce(true, k, raw, at, sectorOffset, skip, remaining, READ_SIZE);
    if at + n <= SECTOR_SIZE * (s + 1) {
      var j := WrongByte(k, s, raw, at + n, NextSectorOffset(sectorOffset, copied), 0, remaining - copied);
      i := copied + j;
    } else {
      InBlocks(s, at, n, sectorOffset);
      i := WrongByteInChunk(k, s, raw, at / BLOCK_LEN, n / BLOCK_LEN, sectorOffset, skip);
    }
  }

  lemma WrongByteInChunk(k: Keys, s: u64, raw: seq<byte>, b: nat, m: nat, sectorOffset: nat, skip: nat)
      returns (i: nat)
    requires |raw| < OFFSET_LIMIT && |raw| % BLOCK_LEN == 0 && skip < BLOCK_LEN
    requires BLOCK_LEN * (b + m) <= |raw| && RunsOver(s, b, m, sectorOffset)
    requires Tells(k, s, BlockAt(raw, SECTOR_BLOCKS * (s + 1)))
    ensures skip + i < BLOCK_LEN * m
    ensures ChunkBuffer(true, k, raw, BLOCK_LEN * b, sectorOffset, BLOCK_LEN * m)[skip + i]
         != Plain(k, raw)[BLOCK_LEN * b + skip + i]
  {
    hide Decrypted, Plain, BlockAt, Tells;
    var j := WrongPastSector(k, s, raw, b, m, sectorOffset);
    var d := Decrypted(true, k, BLOCK_LEN * b, sectorOffset, raw[BLOCK_LEN * b..BLOCK_LEN * (b + m)]);
    var x := DifferentByte(BlockAt(d, j), BlockAt(Plain(k, raw), b + j));
    i := BLOCK_LEN * j + x - skip;
    BlockByte(d, j, x);
    BlockByte(Plain(k, raw), b + j, x);
  }

  lemma DifferentByte(x: Block, y: Block) returns (m: nat)
    requires x != y
    ensures m < BLOCK_LEN && x[m] != y[m]
  {
    m :| 0 <= m < BLOCK_LEN && x[m] != y[m];
  }

  /** So the request returns something else than the plaintext of contents with such a block. */
  lemma WrongIfStraddles(k: Keys, c: Block, length: nat, offset: nat, size: nat) returns (raw: seq<byte>)
    requires length % BLOCK_LEN == 0 && 0 < size && offset + size <= length < OFFSET_LIMIT
    requires var at := offset - offset % BLOCK_LEN;
             && Straddles(at / SECTOR_SIZE, at, offset % SECTOR_SIZE, offset % BLOCK_LEN, size)
             && Tells(k, at / SECTOR_SIZE, c)
    ensures |raw| == length && Read(true, k, raw, offset, size) != Plain(k, raw)[offset..offset + size]
  {
    hide Plain, ReadFrom, Tells, Put, BlockAt;
    var at := offset - offset % BLOCK_LEN;
    var s: u64 := at / SECTOR_SIZE;
    AfterBoundary(s, offset + size, length);
    hide Straddles;
    var b := SECTOR_BLOCKS * (s + 1);
    raw := Put(Zeros(length), BLOCK_LEN * b, c);
    BlockOfPut(Zeros(length), b, c, b);
    ReadStarts(true, k, raw, offset, size);
    var i := WrongByte(k, s, raw, at, offset % SECTOR_SIZE, offset % BLOCK_LEN, size);
    assert Plain(k, raw)[offset..offset + size][i] == Plain(k, raw)[offset + i];
  }

  lemma AfterBoundary(s: nat, end: nat, length: nat)
    requires SECTOR_SIZE * (s + 1) < end <= length && end % BLOCK_LEN == 0
    ensures BLOCK_LEN * (SECTOR_BLOCKS * (s + 1) + 1) <= length
  {
    var q := end / BLOCK_LEN;
    assert end == BLOCK_LEN * q;
    assert BLOCK_LEN * (SECTOR_BLOCKS * (s + 1)) == SECTOR_SIZE * (s + 1);
    assert SECTOR_BLOCKS * (s + 1) < q;
  }

  // ---- ciphers that show both ----

  /** A cipher that only adds a fixed block. */
  function MaskCipher(m: Block): Cipher {
    Cipher((b: Block) => Masked(m, b), (b: Block) => Masked(m, b))
  }

  function Masked(m: Block, b: Block): Block {
    XorBlock(b, m)
  }

  lemma MaskInverse(m: Block)
    ensures Inverse(MaskCipher(m))
  {
    hide XorBlock;
    var c := MaskCipher(m);
    forall b: Block ensures c.dec(c.enc(b)) == b && c.enc(c.dec(b)) == b {
      XorBlockCancels(b, m);
    }
  }

  lemma MaskShowsZero()
    ensures ShowsZero(MaskCipher(ONES))
  {
    hide XorBlock;
    ZeroXor(ONES);
    forall i | 0 <= i < BLOCK_LEN ensures MaskCipher(ONES).enc(ZERO_BLOCK)[i] != 0 {
      OnesNotZero(i);
    }
  }

  /** Exchanges the zero block with `w`. */
  function Exchange(w: Block, b: Block): Block {
    if b == ZERO_BLOCK then w else if b == w then ZERO_BLOCK else b
  }

  function ExchangeCipher(w: Block): Cipher {
    Cipher((b: Block) => Exchange(w, b), (b: Block) => Exchange(w, b))
  }

  lemma ExchangeInverse(w: Block)
    ensures Inverse(ExchangeCipher(w))
  { }

  lemma {:induction false} AlphaOfZero(n: nat)
    ensures Alpha(ZERO_BLOCK, n) == ZERO_BLOCK
  {
    hide Double;
    if n > 0 {
      AlphaOfZero(n - 1);
      DoubleOfZero();
    }
  }

  lemma DoubleOfZero()
    ensures Double(ZERO_BLOCK) == ZERO_BLOCK
  {
    hide ShiftByte, HighBit;
    ZeroShifts();
    ZeroBytes();
    assert Shift(ZERO_BLOCK) == ZERO_BLOCK;
  }

  lemma ZeroBytes()
    ensures forall i :: 0 <= i < BLOCK_LEN ==> ZERO_BLOCK[i] == 0
  { }

  lemma ZeroShifts()
    ensures ShiftByte(0, 0) == 0 && !HighBit(0)
  { }

  /** Keys that tell sector `s` from the next one: its tweak is zero, and only a zero block deciphers to `w`. */
  function SectorKeys(s: u64, w: Block): Keys {
    Keys(ExchangeCipher(w), MaskCipher(GenIv(0, s)))
  }

  /** The encrypted number of the sector after `s`. */
  function AfterTweak(s: u64): Block
    requires s < MAX64
  {
    XorBlock(GenIv(0, s + 1), GenIv(0, s))
  }

  lemma SectorTweaks(s: u64, w: Block)
    requires s < MAX64
    ensures SectorKeys(s, w).tweak.enc(GenIv(0, s)) == ZERO_BLOCK
    ensures SectorKeys(s, w).tweak.enc(GenIv(0, s + 1)) == AfterTweak(s) != ZERO_BLOCK
  {
    hide XorBlock, GenIv;
    XorBlockZero(GenIv(0, s), GenIv(0, s));
    XorBlockZero(GenIv(0, s + 1), GenIv(0, s));
    if AfterTweak(s) == ZERO_BLOCK {
      GenIvInjective(0, s + 1, 0, s);
    }
  }

  /** A zero block deciphers to `w` under the zero tweak and to zero under the tweak of the next sector. */
  lemma ExchangeUnderTweaks(w: Block, v: Block)
    requires w != ZERO_BLOCK && v != ZERO_BLOCK && v != w
    ensures XtsBlock(ExchangeCipher(w).dec, ZERO_BLOCK, ZERO_BLOCK) == w
    ensures XtsBlock(ExchangeCipher(w).dec, v, ZERO_BLOCK) == ZERO_BLOCK
  {
    XorBlockZero(ZERO_BLOCK, ZERO_BLOCK);
    XorBlockZero(w, ZERO_BLOCK);
    XorBlockZero(v, v);
    ZeroXor(v);
  }

  /** Keys under which the zero block tells any sector from the next. */
  lemma SectorKeysTell(s: u64) returns (k: Keys)
    requires s < MAX64
    ensures Inverse(k.crypt) && Inverse(k.tweak) && Tells(k, s, ZERO_BLOCK)
  {
    hide XtsBlock, Alpha, GenIv, Inverse, ExchangeCipher, MaskCipher, AfterTweak;
    var w := OtherBlock(AfterTweak(s));
    k := SectorKeys(s, w);
    ExchangeInverse(w);
    MaskInverse(GenIv(0, s));
    SectorTweaks(s, w);
    AlphaOfZero(SECTOR_BLOCKS);
    ExchangeUnderTweaks(w, AfterTweak(s));
  }

  lemma OtherBlock(v: Block) returns (w: Block)
    ensures w != ZERO_BLOCK && w != v
  {
    var one: Block := ZERO_BLOCK[0 := 1];
    w := if v == one then ZERO_BLOCK[0 := 2] else one;
    assert one[0] == 1 && ZERO_BLOCK[0 := 2][0] == 2 && ZERO_BLOCK[0] == 0;
  }

  // ---- both halves ----

  /** Whatever the two keys and the contents of a partition of `length` bytes, the read is the view's slice. */
  ghost predicate ReadsExactly(length: nat, offset: nat, size: nat)
    requires length % BLOCK_LEN == 0 && offset + size <= length < OFFSET_LIMIT
  {
    forall k: Keys, raw: seq<byte> :: Inverse(k.crypt) && Inverse(k.tweak) && |raw| == length ==>
      Read(true, k, raw, offset, size) == Plain(k, raw)[offset..offset + size]
  }

  /**
   The read loop returns the decrypted slice for every key pair and every image exactly when the range
   ends on a block, starts on one or is at least a chunk long, and lies on the chunk grid or in one sector.
   */
  lemma ReadsExactlyIffChunked(length: nat, offset: nat, size: nat)
    requires length % BLOCK_LEN == 0 && 0 < size && offset + size <= length < OFFSET_LIMIT
    ensures ReadsExactly(length, offset, size) <==> Chunked(offset, size)
  {
    if Chunked(offset, size) {
      hide Chunked, Plain, Read;
      forall k: Keys, raw: seq<byte> | Inverse(k.crypt) && Inverse(k.tweak) && |raw| == length
        ensures Read(true, k, raw, offset, size) == Plain(k, raw)[offset..offset + size]
      {
        ReadIsView(true, k, raw, offset, size);
      }
    } else {
      WrongRead(length, offset, size);
    }
  }

  lemma WrongRead(length: nat, offset: nat, size: nat)
    requires length % BLOCK_LEN == 0 && 0 < size && offset + size <= length < OFFSET_LIMIT
    requires !Chunked(offset, size)
    ensures !ReadsExactly(length, offset, size)
  {
    hide EndsRaw, Straddles, Chunked, Read, Plain, Inverse, MaskCipher;
    UnchunkedCases(offset, size);
    var k: Keys, raw: seq<byte>;
    if EndsRaw(offset % BLOCK_LEN, size, READ_SIZE) {
      MaskInverse(ONES);
      MaskShowsZero();
      k := Keys(MaskCipher(ONES), MaskCipher(ONES));
      raw := WrongIfEndsRaw(k, length, offset, size);
    } else {
      k := SectorKeysTell((offset - offset % BLOCK_LEN) / SECTOR_SIZE);
      raw := WrongIfStraddles(k, ZERO_BLOCK, length, offset, size);
    }
    assert Read(true, k, raw, offset, size) != Plain(k, raw)[offset..offset + size];
  }

  lemma LaterSector(at: nat, last: nat)
    requires at <= last && at / SECTOR_SIZE != last / SECTOR_SIZE
    ensures last >= SECTOR_SIZE * (at / SECTOR_SIZE + 1)
  { }

  lemma UnchunkedCases(offset: nat, size: nat)
    requires 0 < size && !Chunked(offset, size) && offset < OFFSET_LIMIT
    ensures var at, skip := offset - offset % BLOCK_LEN, offset % BLOCK_LEN;
            || EndsRaw(skip, size, READ_SIZE)
            || Straddles(at / SECTOR_SIZE, at, offset % SECTOR_SIZE, skip, size)
  {
    var at, skip := offset - offset % BLOCK_LEN, offset % BLOCK_LEN;
    BlockSplit(offset);
    if !EndsRaw(skip, size, READ_SIZE) {
      SameResidue(offset, size);
      LaterSector(at, offset + size - 1);
    }
  }

  lemma SameResidue(offset: nat, size: nat)
    ensures (size + offset % BLOCK_LEN) % BLOCK_LEN == (offset + size) % BLOCK_LEN
  {
    Division.AddRest(offset, size);
  }
}
