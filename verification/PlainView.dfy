/**
 The decrypted view of a partition: what its ciphertext means as a byte array, and how the chunks that
 the driver decrypts and the blocks it encrypts relate to that array.
 */
module PlainView {
  import opened Bytes
  import opened BlockCipher
  import opened Tweak
  import opened Xtsn
  import Division

  const SECTOR_SIZE: nat := 0x4000
  const SECTOR_BLOCKS: nat := 1024

  /** The two keys of a partition, as the permutations they select. */
  datatype Keys = Keys(crypt: Cipher, tweak: Cipher)

  function SectorOf(b: nat): u64 {
    (b / SECTOR_BLOCKS) % 0x1_0000_0000_0000_0000
  }

  /** The tweak of block `b` of a partition: alpha^(b mod 1024) times the encrypted sector number. */
  function BlockTweak(k: Keys, b: nat): Block {
    Alpha(k.tweak.enc(GenIv(0, SectorOf(b))), b % SECTOR_BLOCKS)
  }

  function PlainBlock(k: Keys, b: nat, c: Block): Block {
    XtsBlock(k.crypt.dec, BlockTweak(k, b), c)
  }

  function SealedBlock(k: Keys, b: nat, p: Block): Block {
    XtsBlock(k.crypt.enc, BlockTweak(k, b), p)
  }

  /** The plaintext of a whole number of blocks of ciphertext. */
  function Plain(k: Keys, raw: seq<byte>): (p: seq<byte>)
    requires |raw| % BLOCK_LEN == 0
    ensures |p| == |raw|
  {
    seq(|raw|, i requires 0 <= i < |raw| => PlainBlock(k, i / BLOCK_LEN, BlockAt(raw, i / BLOCK_LEN))[i % BLOCK_LEN])
  }

  /** The view a partition offers; the `encrypted` flag of its table entry decides. */
  function View(encrypted: bool, k: Keys, raw: seq<byte>): (p: seq<byte>)
    requires |raw| % BLOCK_LEN == 0
    ensures |p| == |raw|
  {
    if encrypted then Plain(k, raw) else raw
  }

  lemma PlainAt(k: Keys, raw: seq<byte>, b: nat)
    requires |raw| % BLOCK_LEN == 0 && BLOCK_LEN * (b + 1) <= |raw|
    ensures BlockAt(Plain(k, raw), b) == PlainBlock(k, b, BlockAt(raw, b))
  {
    hide PlainBlock;
    var p, x := Plain(k, raw), PlainBlock(k, b, BlockAt(raw, b));
    forall i | 0 <= i < BLOCK_LEN ensures BlockAt(p, b)[i] == x[i] {
      assert (BLOCK_LEN * b + i) / BLOCK_LEN == b && (BLOCK_LEN * b + i) % BLOCK_LEN == i;
      assert BlockAt(p, b)[i] == p[BLOCK_LEN * b + i];
    }
  }

  lemma SealedThenPlain(k: Keys, b: nat, x: Block)
    requires Inverse(k.crypt)
    ensures PlainBlock(k, b, SealedBlock(k, b, x)) == x
    ensures SealedBlock(k, b, PlainBlock(k, b, x)) == x
  {
    hide XtsBlock, BlockTweak;
    XtsBlockInverts(k.crypt, true, BlockTweak(k, b), x);
    XtsBlockInverts(k.crypt, false, BlockTweak(k, b), x);
  }

  /** The view determines the ciphertext. */
  lemma PlainInjective(k: Keys, raw: seq<byte>, other: seq<byte>)
    requires Inverse(k.crypt) && |raw| == |other| && |raw| % BLOCK_LEN == 0
    requires Plain(k, raw) == Plain(k, other)
    ensures raw == other
  {
    hide Plain, PlainBlock, SealedBlock;
    forall b: nat | BLOCK_LEN * (b + 1) <= |raw| ensures BlockAt(raw, b) == BlockAt(other, b) {
      PlainAt(k, raw, b);
      PlainAt(k, other, b);
      SealedThenPlain(k, b, BlockAt(raw, b));
      SealedThenPlain(k, b, BlockAt(other, b));
    }
    SameBlocks(raw, other);
  }

  /** Replacing one block of ciphertext replaces that block of the view and nothing else. */
  lemma PlainOfPut(k: Keys, raw: seq<byte>, at: nat, x: Block)
    requires |raw| % BLOCK_LEN == 0 && BLOCK_LEN * (at + 1) <= |raw|
    ensures Plain(k, Put(raw, BLOCK_LEN * at, x)) == Put(Plain(k, raw), BLOCK_LEN * at, PlainBlock(k, at, x))
  {
    hide Plain, PlainBlock, Put;
    var l, r := Plain(k, Put(raw, BLOCK_LEN * at, x)), Put(Plain(k, raw), BLOCK_LEN * at, PlainBlock(k, at, x));
    forall b: nat | BLOCK_LEN * (b + 1) <= |raw| ensures BlockAt(l, b) == BlockAt(r, b) {
      PlainAt(k, Put(raw, BLOCK_LEN * at, x), b);
      PlainAt(k, raw, b);
      BlockOfPut(raw, at, x, b);
      BlockOfPut(Plain(k, raw), at, PlainBlock(k, at, x), b);
    }
    SameBlocks(l, r);
  }

  // ---- one call of the XTS procedure on a piece of a sector ----

  lemma TweakWithinSector(k: Keys, first: nat, i: nat)
    requires first % SECTOR_BLOCKS + i < SECTOR_BLOCKS
    ensures BlockTweak(k, first + i) == Alpha(k.tweak.enc(GenIv(0, SectorOf(first))), first % SECTOR_BLOCKS + i)
  {
    hide Alpha, GenIv;
    Division.DivUnique(first + i, SECTOR_BLOCKS, first / SECTOR_BLOCKS, first % SECTOR_BLOCKS + i);
  }

  /** Block and sector numbers of a block-aligned byte offset. */
  lemma BlockInSector(at: nat, sectorOffset: nat)
    requires at % BLOCK_LEN == 0 && at < MAX64 && sectorOffset / BLOCK_LEN == at % SECTOR_SIZE / BLOCK_LEN
    ensures at / BLOCK_LEN % SECTOR_BLOCKS == sectorOffset / BLOCK_LEN
    ensures SectorOf(at / BLOCK_LEN) == at / SECTOR_SIZE
  {
    Division.BlockThenSector(at);
    var q, r := at / SECTOR_SIZE, at % SECTOR_SIZE;
    assert at == BLOCK_LEN * (at / BLOCK_LEN) && r == BLOCK_LEN * (r / BLOCK_LEN);
    Division.DivUnique(at / BLOCK_LEN, SECTOR_BLOCKS, q, r / BLOCK_LEN);
  }

  lemma BlockOfSlice(s: seq<byte>, at: nat, n: nat, b: nat)
    requires at % BLOCK_LEN == 0 && at + n <= |s| && BLOCK_LEN * (b + 1) <= n
    ensures BlockAt(s[at..at + n], b) == BlockAt(s, at / BLOCK_LEN + b)
  {
    SliceOfSlice(s, at, n, BLOCK_LEN * b, BLOCK_LEN * b + BLOCK_LEN);
  }

  /** Decrypting whole blocks inside one sector, with the start offset right to the block, yields the view there. */
  lemma DecryptedChunkIsView(k: Keys, raw: seq<byte>, at: nat, n: nat, sectorOffset: u64)
    requires |raw| % BLOCK_LEN == 0 && at % BLOCK_LEN == 0 && n % BLOCK_LEN == 0 && at + n <= |raw| < MAX64
    requires at % SECTOR_SIZE + n <= SECTOR_SIZE
    requires sectorOffset < SECTOR_SIZE && sectorOffset / BLOCK_LEN == at % SECTOR_SIZE / BLOCK_LEN
    ensures Process(false, k.crypt, k.tweak, 0, at / SECTOR_SIZE, SECTOR_SIZE, sectorOffset, raw[at..at + n])
         == Plain(k, raw)[at..at + n]
  {
    hide Plain, PlainBlock, Process, XtsBlock, Alpha, BlockTweak, GenIv;
    BlockInSector(at, sectorOffset);
    hide SectorOf;
    var first := at / BLOCK_LEN;
    var c := raw[at..at + n];
    var l := Process(false, k.crypt, k.tweak, 0, at / SECTOR_SIZE, SECTOR_SIZE, sectorOffset, c);
    var r := Plain(k, raw)[at..at + n];
    forall b: nat | BLOCK_LEN * (b + 1) <= n ensures BlockAt(l, b) == BlockAt(r, b) {
      ProcessClosedForm(false, k.crypt, k.tweak, 0, at / SECTOR_SIZE, SECTOR_SIZE, sectorOffset, c, b);
      TweakWithinSector(k, first, b);
      PlainAt(k, raw, first + b);
      BlockOfSlice(raw, at, n, b);
      BlockOfSlice(Plain(k, raw), at, n, b);
      DecryptIsPlainBlock(k, first + b, BlockAt(raw, first + b));
    }
    SameBlocks(l, r);
  }

  lemma DecryptIsPlainBlock(k: Keys, b: nat, x: Block)
    ensures XtsBlock(Direction(k.crypt, false), BlockTweak(k, b), x) == PlainBlock(k, b, x)
    ensures XtsBlock(Direction(k.crypt, true), BlockTweak(k, b), x) == SealedBlock(k, b, x)
  {
    hide XtsBlock, BlockTweak;
  }

  /** One block processed with the same arguments is unsealed or sealed. */
  lemma OneBlockProcessed(encrypt: bool, k: Keys, at: nat, p: Block, sectorOffset: u64)
    requires at % BLOCK_LEN == 0 && at < MAX64
    requires sectorOffset < SECTOR_SIZE && sectorOffset / BLOCK_LEN == at % SECTOR_SIZE / BLOCK_LEN
    ensures Process(encrypt, k.crypt, k.tweak, 0, at / SECTOR_SIZE, SECTOR_SIZE, sectorOffset, p)
         == if encrypt then SealedBlock(k, at / BLOCK_LEN, p) else PlainBlock(k, at / BLOCK_LEN, p)
  {
    hide SealedBlock, PlainBlock, Process, XtsBlock, Alpha, BlockTweak, GenIv;
    var b := at / BLOCK_LEN;
    var l := Process(encrypt, k.crypt, k.tweak, 0, at / SECTOR_SIZE, SECTOR_SIZE, sectorOffset, p);
    BlockInSector(at, sectorOffset);
    ProcessClosedForm(encrypt, k.crypt, k.tweak, 0, at / SECTOR_SIZE, SECTOR_SIZE, sectorOffset, p, 0);
    TweakWithinSector(k, b, 0);
    DecryptIsPlainBlock(k, b, p);
    assert BlockAt(l, 0) == l && BlockAt(p, 0) == p;
  }

  // ---- what a write stores ----

  function ViewBlock(encrypted: bool, k: Keys, b: nat, c: Block): Block {
    if encrypted then PlainBlock(k, b, c) else c
  }

  function StoredBlock(encrypted: bool, k: Keys, b: nat, p: Block): Block {
    if encrypted then SealedBlock(k, b, p) else p
  }

  lemma StoredThenViewed(encrypted: bool, k: Keys, b: nat, x: Block)
    requires Inverse(k.crypt)
    ensures ViewBlock(encrypted, k, b, StoredBlock(encrypted, k, b, x)) == x
    ensures StoredBlock(encrypted, k, b, ViewBlock(encrypted, k, b, x)) == x
  {
    hide PlainBlock, SealedBlock;
    SealedThenPlain(k, b, x);
  }

  lemma ViewAt(encrypted: bool, k: Keys, raw: seq<byte>, b: nat)
    requires |raw| % BLOCK_LEN == 0 && BLOCK_LEN * (b + 1) <= |raw|
    ensures BlockAt(View(encrypted, k, raw), b) == ViewBlock(encrypted, k, b, BlockAt(raw, b))
  {
    hide PlainBlock, Plain;
    PlainAt(k, raw, b);
  }

  /** The view determines the stored bytes. */
  lemma ViewInjective(encrypted: bool, k: Keys, raw: seq<byte>, other: seq<byte>)
    requires Inverse(k.crypt) && |raw| == |other| && |raw| % BLOCK_LEN == 0
    requires View(encrypted, k, raw) == View(encrypted, k, other)
    ensures raw == other
  {
    hide Plain;
    if encrypted {
      PlainInjective(k, raw, other);
    }
  }

  /** Storing one plaintext block replaces that block of the view and nothing else. */
  lemma ViewOfStoredBlock(encrypted: bool, k: Keys, raw: seq<byte>, b: nat, x: Block)
    requires Inverse(k.crypt) && |raw| % BLOCK_LEN == 0 && BLOCK_LEN * (b + 1) <= |raw|
    ensures View(encrypted, k, Put(raw, BLOCK_LEN * b, StoredBlock(encrypted, k, b, x)))
         == Put(View(encrypted, k, raw), BLOCK_LEN * b, x)
  {
    hide Plain, PlainBlock, SealedBlock, Put;
    if encrypted {
      PlainOfPut(k, raw, b, SealedBlock(k, b, x));
      SealedThenPlain(k, b, x);
    }
  }

  /** Block `b` holds a byte of the range. */
  predicate Covers(offset: nat, size: nat, b: nat) {
    offset < BLOCK_LEN * (b + 1) && BLOCK_LEN * b < offset + size
  }

  /** The bytes a partition holds after `data` was written at `offset`: the covering blocks stored anew. */
  function Stored(encrypted: bool, k: Keys, raw: seq<byte>, offset: nat, data: seq<byte>): (r: seq<byte>)
    requires |raw| % BLOCK_LEN == 0 && offset + |data| <= |raw|
    ensures |r| == |raw|
  {
    var p := Put(View(encrypted, k, raw), offset, data);
    seq(|raw|, i requires 0 <= i < |raw| =>
      var b := i / BLOCK_LEN;
      if Covers(offset, |data|, b) then StoredBlock(encrypted, k, b, BlockAt(p, b))[i % BLOCK_LEN] else raw[i])
  }

  lemma StoredAt(encrypted: bool, k: Keys, raw: seq<byte>, offset: nat, data: seq<byte>, b: nat)
    requires |raw| % BLOCK_LEN == 0 && offset + |data| <= |raw| && BLOCK_LEN * (b + 1) <= |raw|
    ensures BlockAt(Stored(encrypted, k, raw, offset, data), b)
         == if Covers(offset, |data|, b)
            then StoredBlock(encrypted, k, b, BlockAt(Put(View(encrypted, k, raw), offset, data), b))
            else BlockAt(raw, b)
  {
    hide StoredBlock, View, Covers, Put;
    var s := Stored(encrypted, k, raw, offset, data);
    var x := if Covers(offset, |data|, b)
             then StoredBlock(encrypted, k, b, BlockAt(Put(View(encrypted, k, raw), offset, data), b))
             else BlockAt(raw, b);
    forall i | 0 <= i < BLOCK_LEN ensures BlockAt(s, b)[i] == x[i] {
      assert (BLOCK_LEN * b + i) / BLOCK_LEN == b && (BLOCK_LEN * b + i) % BLOCK_LEN == i;
      assert BlockAt(s, b)[i] == s[BLOCK_LEN * b + i];
    }
  }

  lemma UncoveredBlock(p: seq<byte>, offset: nat, data: seq<byte>, b: nat)
    requires offset + |data| <= |p| && BLOCK_LEN * (b + 1) <= |p| && !Covers(offset, |data|, b)
    ensures BlockAt(Put(p, offset, data), b) == BlockAt(p, b)
  { }

  /** Write refinement, as one step: the view changes exactly in the written range. */
  lemma ViewOfStored(encrypted: bool, k: Keys, raw: seq<byte>, offset: nat, data: seq<byte>)
    requires Inverse(k.crypt) && |raw| % BLOCK_LEN == 0 && offset + |data| <= |raw|
    ensures View(encrypted, k, Stored(encrypted, k, raw, offset, data)) == Put(View(encrypted, k, raw), offset, data)
  {
    hide View, ViewBlock, StoredBlock, Stored, Covers, Put, Inverse;
    var s, p := Stored(encrypted, k, raw, offset, data), View(encrypted, k, raw);
    forall b: nat | BLOCK_LEN * (b + 1) <= |raw|
      ensures BlockAt(View(encrypted, k, s), b) == BlockAt(Put(p, offset, data), b)
    {
      ViewAt(encrypted, k, s, b);
      ViewAt(encrypted, k, raw, b);
      StoredAt(encrypted, k, raw, offset, data, b);
      if Covers(offset, |data|, b) {
        StoredThenViewed(encrypted, k, b, BlockAt(Put(p, offset, data), b));
      } else {
        UncoveredBlock(p, offset, data, b);
      }
    }
    SameBlocks(View(encrypted, k, s), Put(p, offset, data));
  }

  /** Bytes with the right view are the stored ones, in whatever steps they came about. */
  lemma StoredByView(encrypted: bool, k: Keys, raw: seq<byte>, cur: seq<byte>, offset: nat, data: seq<byte>)
    requires Inverse(k.crypt) && |cur| == |raw| && |raw| % BLOCK_LEN == 0 && offset + |data| <= |raw|
    requires View(encrypted, k, cur) == Put(View(encrypted, k, raw), offset, data)
    ensures cur == Stored(encrypted, k, raw, offset, data)
  {
    hide View, Stored, Put, Inverse;
    ViewOfStored(encrypted, k, raw, offset, data);
    ViewInjective(encrypted, k, cur, Stored(encrypted, k, raw, offset, data));
  }

  /** Stored bytes outside the covering blocks stay as they were. */
  lemma StoredKeepsRest(encrypted: bool, k: Keys, raw: seq<byte>, offset: nat, data: seq<byte>, i: nat)
    requires |raw| % BLOCK_LEN == 0 && offset + |data| <= |raw| && i < |raw|
    requires || i < offset - offset % BLOCK_LEN
             || (i >= offset + |data| && i / BLOCK_LEN > (offset + |data| - 1) / BLOCK_LEN)
    ensures Stored(encrypted, k, raw, offset, data)[i] == raw[i]
  {
    hide StoredBlock, View;
  }

  // Where a byte offset falls: the start of its block, its place in the block and in the sector.

  function BlockStart(offset: nat): nat {
    offset - offset % BLOCK_LEN
  }

  function InBlock(offset: nat): nat {
    offset % BLOCK_LEN
  }

  function InSector(offset: nat): nat {
    offset % SECTOR_SIZE
  }

  /** A block's offset in the partition, the same in its sector, and a place in the block, as the loops carry them. */
  predicate BlockOffsets(at: nat, sectorOffset: nat, skip: nat) {
    at % BLOCK_LEN == 0 && skip < BLOCK_LEN && sectorOffset == at % SECTOR_SIZE + skip
  }

  /** One turn of a write: the block read back, `piece` merged in at `skip`, and the block stored again. */
  lemma MergedBlock(encrypted: bool, k: Keys, raw: seq<byte>, at: nat, sectorOffset: u64, skip: nat,
                    piece: seq<byte>, x: Block, y: Block)
    requires Inverse(k.crypt) && |raw| % BLOCK_LEN == 0 && at + BLOCK_LEN <= |raw| < MAX64
    requires skip + |piece| <= BLOCK_LEN && BlockOffsets(at, sectorOffset, skip)
    requires x == Put(View(encrypted, k, raw)[at..at + BLOCK_LEN], skip, piece)
    requires y == if encrypted
      then Process(true, k.crypt, k.tweak, 0, at / SECTOR_SIZE, SECTOR_SIZE, sectorOffset, x) else x
    ensures View(encrypted, k, Put(raw, at, y)) == Put(View(encrypted, k, raw), at + skip, piece)
  {
    hide View, Process, SealedBlock, Put, Inverse, BlockOffsets;
    var b, p := at / BLOCK_LEN, View(encrypted, k, raw);
    SameBlockOffset(at, sectorOffset, skip);
    if encrypted {
      OneBlockProcessed(true, k, at, x, sectorOffset);
    }
    ViewOfStoredBlock(encrypted, k, raw, b, x);
    PutInside(p, at, p[at..at + BLOCK_LEN], skip, piece);
    PutSame(p, at, BLOCK_LEN);
  }

  lemma SameBlockOffset(at: nat, sectorOffset: u64, skip: nat)
    requires BlockOffsets(at, sectorOffset, skip)
    ensures sectorOffset < SECTOR_SIZE && sectorOffset / BLOCK_LEN == at % SECTOR_SIZE / BLOCK_LEN
    ensures BLOCK_LEN * (at / BLOCK_LEN) == at && at % BLOCK_LEN == 0
  {
    Division.BlockThenSector(at);
    var r := at % SECTOR_SIZE;
    assert r == BLOCK_LEN * (r / BLOCK_LEN);
    Division.DivUnique(sectorOffset, BLOCK_LEN, r / BLOCK_LEN, skip);
  }
}
