/**
 The chunk loop of nand_read as a function of the partition's bytes, for every offset and size, and the
 exact condition under which it returns the decrypted view.
 */
module ReadLoop {
  import opened Bytes
  import opened Xtsn
  import opened PlainView
  import Division

  const READ_SIZE: nat := 0x400
  const OFFSET_LIMIT: nat := 0x8000_0000_0000_0000

  function Zeros(n: nat): (r: seq<byte>)
    ensures |r| == n && forall i :: 0 <= i < n ==> r[i] == 0
  {
    seq(n, _ => 0)
  }

  /** What the decryption call leaves of the bytes read at `at`. */
  function Decrypted(encrypted: bool, k: Keys, at: nat, sectorOffset: nat, c: seq<byte>): (r: seq<byte>)
    requires at < OFFSET_LIMIT && sectorOffset < SECTOR_SIZE
    ensures |r| == |c|
  {
    if encrypted then Process(false, k.crypt, k.tweak, 0, at / SECTOR_SIZE, SECTOR_SIZE, sectorOffset, c) else c
  }

  /** `toCopySize`, where `n - skip` wraps around when the chunk is shorter than the skip. */
  function CopySize(remaining: nat, n: nat, skip: nat): nat {
    if n < skip || remaining <= n - skip then remaining else n - skip
  }

  function NextSectorOffset(sectorOffset: nat, copied: nat): (r: nat)
    ensures r < SECTOR_SIZE
  {
    if sectorOffset + copied >= SECTOR_SIZE then (sectorOffset + copied) % SECTOR_SIZE else sectorOffset + copied
  }

  /** The read buffer after one chunk: the decrypted bytes, and zeros up to its end. */
  function ChunkBuffer(encrypted: bool, k: Keys, raw: seq<byte>, at: nat, sectorOffset: nat, n: nat): (r: seq<byte>)
    requires n <= READ_SIZE && at + n <= |raw| && at < OFFSET_LIMIT && sectorOffset < SECTOR_SIZE
    ensures |r| == READ_SIZE
  {
    Decrypted(encrypted, k, at, sectorOffset, raw[at..at + n]) + Zeros(READ_SIZE - n)
  }

  ghost predicate LoopState(raw: seq<byte>, at: nat, sectorOffset: nat, skip: nat, remaining: nat, blockSize: nat) {
    && at + skip + remaining <= |raw| < OFFSET_LIMIT
    && sectorOffset < SECTOR_SIZE && skip < BLOCK_LEN
    && 0 < blockSize <= READ_SIZE && (skip > 0 ==> blockSize == READ_SIZE)
  }

  /** The bytes the loop copies out from a state on: `at` is `decrypt_offset`, `remaining` is `size - read`. */
  function ReadFrom(encrypted: bool, k: Keys, raw: seq<byte>,
                    at: nat, sectorOffset: nat, skip: nat, remaining: nat, blockSize: nat): (r: seq<byte>)
    requires LoopState(raw, at, sectorOffset, skip, remaining, blockSize)
    ensures |r| == remaining
    decreases remaining, skip
  {
    if remaining == 0 then []
    else
      var n := if blockSize > remaining then remaining else blockSize;
      var copied := CopySize(remaining, n, skip);
      ChunkBuffer(encrypted, k, raw, at, sectorOffset, n)[skip..skip + copied]
      + ReadFrom(encrypted, k, raw, at + n, NextSectorOffset(sectorOffset, copied), 0, remaining - copied, n)
  }

  /** One turn stays inside its buffers and leaves the loop in order. */
  lemma LoopStep(raw: seq<byte>, at: nat, sectorOffset: nat, skip: nat, remaining: nat, blockSize: nat)
    requires LoopState(raw, at, sectorOffset, skip, remaining, blockSize) && remaining > 0
    ensures var n := if blockSize > remaining then remaining else blockSize;
            var copied := CopySize(remaining, n, skip);
            && 0 < blockSize <= READ_SIZE && at + n <= |raw| < OFFSET_LIMIT && sectorOffset < SECTOR_SIZE
            && skip < BLOCK_LEN && (skip > 0 ==> blockSize == READ_SIZE)
            && copied <= remaining && (copied == 0 ==> skip > 0)
            && skip + copied <= READ_SIZE && (skip + copied <= n || blockSize == READ_SIZE)
            && LoopState(raw, at + n, NextSectorOffset(sectorOffset, copied), 0, remaining - copied, n)
  {
    hide NextSectorOffset;
  }

  lemma ReadFromOnce(encrypted: bool, k: Keys, raw: seq<byte>, at: nat, sectorOffset: nat, skip: nat,
                     remaining: nat, blockSize: nat)
    requires LoopState(raw, at, sectorOffset, skip, remaining, blockSize) && remaining > 0
    ensures var n := if blockSize > remaining then remaining else blockSize;
            var copied := CopySize(remaining, n, skip);
            && copied <= remaining && skip + copied <= READ_SIZE && at + n <= |raw|
            && LoopState(raw, at + n, NextSectorOffset(sectorOffset, copied), 0, remaining - copied, n)
            && ReadFrom(encrypted, k, raw, at, sectorOffset, skip, remaining, blockSize)
            == ChunkBuffer(encrypted, k, raw, at, sectorOffset, n)[skip..skip + copied]
             + ReadFrom(encrypted, k, raw, at + n, NextSectorOffset(sectorOffset, copied), 0, remaining - copied, n)
  {
    hide ChunkBuffer, NextSectorOffset, LoopState, CopySize;
    LoopStep(raw, at, sectorOffset, skip, remaining, blockSize);
  }

  /** The same turn on the bytes copied out, with `done` those from before. */
  lemma ReadFromStep(encrypted: bool, k: Keys, raw: seq<byte>, at: nat, sectorOffset: nat, skip: nat,
                     remaining: nat, blockSize: nat, done: seq<byte>)
    requires LoopState(raw, at, sectorOffset, skip, remaining, blockSize) && remaining > 0
    ensures var n := if blockSize > remaining then remaining else blockSize;
            var copied := CopySize(remaining, n, skip);
            && copied <= remaining && skip + copied <= READ_SIZE && at + n <= |raw|
            && LoopState(raw, at + n, NextSectorOffset(sectorOffset, copied), 0, remaining - copied, n)
            && done + ReadFrom(encrypted, k, raw, at, sectorOffset, skip, remaining, blockSize)
            == done + ChunkBuffer(encrypted, k, raw, at, sectorOffset, n)[skip..skip + copied]
             + ReadFrom(encrypted, k, raw, at + n, NextSectorOffset(sectorOffset, copied), 0, remaining - copied, n)
  {
    hide ChunkBuffer, NextSectorOffset, LoopState, CopySize, ReadFrom;
    ReadFromOnce(encrypted, k, raw, at, sectorOffset, skip, remaining, blockSize);
    LoopStep(raw, at, sectorOffset, skip, remaining, blockSize);
    var n := if blockSize > remaining then remaining else blockSize;
    var copied := CopySize(remaining, n, skip);
    Regroup(done, ChunkBuffer(encrypted, k, raw, at, sectorOffset, n)[skip..skip + copied],
            ReadFrom(encrypted, k, raw, at + n, NextSectorOffset(sectorOffset, copied), 0, remaining - copied, n));
  }

  /** nand_read of `size` bytes (already clamped) at `offset`. */
  function Read(encrypted: bool, k: Keys, raw: seq<byte>, offset: nat, size: nat): (r: seq<byte>)
    requires offset + size <= |raw| < OFFSET_LIMIT
    ensures |r| == size
  {
    ReadFrom(encrypted, k, raw, BlockStart(offset), InSector(offset), InBlock(offset), size, READ_SIZE)
  }

  lemma ReadStarts(encrypted: bool, k: Keys, raw: seq<byte>, offset: nat, size: nat)
    requires offset + size <= |raw| < OFFSET_LIMIT
    ensures LoopState(raw, BlockStart(offset), InSector(offset), InBlock(offset), size, READ_SIZE)
    ensures Read(encrypted, k, raw, offset, size)
         == ReadFrom(encrypted, k, raw, BlockStart(offset), InSector(offset), InBlock(offset), size, READ_SIZE)
  { }

  // ---- the condition ----

  /** The range ends on a block, starts on one or fills a first chunk, and no chunk straddles two sectors. */
  predicate Chunked(offset: nat, size: nat)
    requires size > 0
  {
    var at := offset - offset % BLOCK_LEN;
    && (offset + size) % BLOCK_LEN == 0
    && (offset % BLOCK_LEN == 0 || size >= READ_SIZE)
    && (at % READ_SIZE == 0 || at / SECTOR_SIZE == (offset + size - 1) / SECTOR_SIZE)
  }

  /** A state whose two offsets agree and whose remaining range meets the condition. */
  ghost predicate InStep(at: nat, sectorOffset: nat, skip: nat, remaining: nat) {
    && at % BLOCK_LEN == 0 && sectorOffset == at % SECTOR_SIZE + skip && skip < BLOCK_LEN
    && (remaining > 0 ==> Chunked(at + skip, remaining))
  }

  /** Neither a chunk-aligned chunk nor one of a range inside a sector crosses a sector boundary. */
  lemma InsideSector(at: nat, end: nat, n: nat)
    requires 0 < n <= READ_SIZE && at + n <= end
    requires at % READ_SIZE == 0 || at / SECTOR_SIZE == (end - 1) / SECTOR_SIZE
    ensures at % SECTOR_SIZE + n <= SECTOR_SIZE
    ensures at + n < end && at % READ_SIZE != 0 ==> (at + n) / SECTOR_SIZE == (end - 1) / SECTOR_SIZE
  {
    if at % READ_SIZE != 0 {
      var s := at / SECTOR_SIZE;
      assert end - 1 < SECTOR_SIZE * (s + 1);
    }
  }

  /** A block that starts inside whole blocks ends inside them, and inside its sector. */
  lemma BlockInside(at: nat, skip: nat, length: nat)
    requires at % BLOCK_LEN == 0 && length % BLOCK_LEN == 0 && at + skip < length
    ensures at + BLOCK_LEN <= length && at % SECTOR_SIZE + BLOCK_LEN <= SECTOR_SIZE
  {
    Division.BlockThenSector(at);
    var r := at % SECTOR_SIZE;
    assert at == BLOCK_LEN * (at / BLOCK_LEN) && length == BLOCK_LEN * (length / BLOCK_LEN);
    assert r == BLOCK_LEN * (r / BLOCK_LEN);
  }

  lemma NextOffset(at: nat, sectorOffset: nat, skip: nat, n: nat)
    requires sectorOffset == at % SECTOR_SIZE + skip && skip <= n && at % SECTOR_SIZE + n <= SECTOR_SIZE
    ensures NextSectorOffset(sectorOffset, n - skip) == (at + n) % SECTOR_SIZE
  {
    Division.WithinSector(at, n);
  }

  /** A chunk of such a range is whole blocks, and what the range asks of it is not empty. */
  lemma ChunkShape(at: nat, skip: nat, remaining: nat, n: nat)
    requires at % BLOCK_LEN == 0 && skip < BLOCK_LEN && remaining > 0 && Chunked(at + skip, remaining)
    requires n == if READ_SIZE > remaining then remaining else READ_SIZE
    ensures n % BLOCK_LEN == 0 && skip < n && (n < READ_SIZE ==> skip == 0)
    ensures at % SECTOR_SIZE + n <= SECTOR_SIZE
    ensures at + n < at + skip + remaining && at % READ_SIZE != 0 ==>
      (at + n) / SECTOR_SIZE == (at + skip + remaining - 1) / SECTOR_SIZE
  {
    Division.AddBlocks(skip, at);
    assert skip == 0 || remaining >= READ_SIZE;
    if remaining < READ_SIZE {
      Division.AddBlocks(remaining, at);
    }
    InsideSector(at, at + skip + remaining, n);
  }

  lemma ChunkedAfter(at: nat, skip: nat, remaining: nat)
    requires at % BLOCK_LEN == 0 && skip < BLOCK_LEN && remaining + skip > READ_SIZE && Chunked(at + skip, remaining)
    requires at % READ_SIZE != 0 ==> (at + READ_SIZE) / SECTOR_SIZE == (at + skip + remaining - 1) / SECTOR_SIZE
    ensures (at + READ_SIZE) % BLOCK_LEN == 0 && Chunked(at + READ_SIZE, remaining + skip - READ_SIZE)
  {
    Division.AddBlocks(at, READ_SIZE);
    Division.AddMultiple(at, READ_SIZE, 1);
  }

  /** A chunk of such a range is whole blocks inside one sector, and the loop goes on in step. */
  lemma ChunkFits(at: nat, sectorOffset: nat, skip: nat, remaining: nat, n: nat, copied: nat)
    requires InStep(at, sectorOffset, skip, remaining) && remaining > 0
    requires n == (if READ_SIZE > remaining then remaining else READ_SIZE) && copied == CopySize(remaining, n, skip)
    ensures at % BLOCK_LEN == 0 && n % BLOCK_LEN == 0 && at % SECTOR_SIZE + n <= SECTOR_SIZE
    ensures sectorOffset < SECTOR_SIZE && sectorOffset / BLOCK_LEN == at % SECTOR_SIZE / BLOCK_LEN
    ensures skip < n && skip + copied <= n && 0 < copied <= remaining
    ensures copied < remaining ==>
      && n == READ_SIZE && copied == n - skip
      && InStep(at + n, NextSectorOffset(sectorOffset, copied), 0, remaining - copied)
  {
    hide NextSectorOffset, Chunked;
    ChunkShape(at, skip, remaining, n);
    SameBlockOffset(at, sectorOffset, skip);
    NextOffset(at, sectorOffset, skip, n);
    if copied < remaining {
      ChunkedAfter(at, skip, remaining);
    }
  }

  /** One chunk of such a range: a slice of the view, then the loop from the next state. */
  lemma OneChunk(encrypted: bool, k: Keys, raw: seq<byte>,
                 at: nat, sectorOffset: nat, skip: nat, remaining: nat, n: nat, copied: nat)
    requires |raw| % BLOCK_LEN == 0 && InStep(at, sectorOffset, skip, remaining) && remaining > 0
    requires LoopState(raw, at, sectorOffset, skip, remaining, READ_SIZE)
    requires n == (if READ_SIZE > remaining then remaining else READ_SIZE) && copied == CopySize(remaining, n, skip)
    requires skip + copied <= n && copied <= remaining
    ensures ChunkBuffer(encrypted, k, raw, at, sectorOffset, n)[skip..skip + copied]
         == View(encrypted, k, raw)[at + skip..at + skip + copied]
  {
    hide Decrypted, View, InStep, CopySize, NextSectorOffset;
    ChunkFits(at, sectorOffset, skip, remaining, n, copied);
    ChunkIsView(encrypted, k, raw, at, sectorOffset, n);
    var d := Decrypted(encrypted, k, at, sectorOffset, raw[at..at + n]);
    assert (d + Zeros(READ_SIZE - n))[skip..skip + copied] == d[skip..skip + copied];
    SliceOfSlice(View(encrypted, k, raw), at, n, skip, skip + copied);
  }

  /** The loop is right from such a state. */
  lemma {:induction false} ReadFromIsView(encrypted: bool, k: Keys, raw: seq<byte>,
                                          at: nat, sectorOffset: nat, skip: nat, remaining: nat)
    requires |raw| % BLOCK_LEN == 0 && InStep(at, sectorOffset, skip, remaining)
    requires LoopState(raw, at, sectorOffset, skip, remaining, READ_SIZE)
    ensures ReadFrom(encrypted, k, raw, at, sectorOffset, skip, remaining, READ_SIZE)
         == View(encrypted, k, raw)[at + skip..at + skip + remaining]
    decreases remaining
  {
    hide View, InStep, CopySize, NextSectorOffset, ChunkBuffer;
    if remaining > 0 {
      var n := if READ_SIZE > remaining then remaining else READ_SIZE;
      var copied := CopySize(remaining, n, skip);
      ChunkFits(at, sectorOffset, skip, remaining, n, copied);
      OneChunk(encrypted, k, raw, at, sectorOffset, skip, remaining, n, copied);
      var p := View(encrypted, k, raw);
      JoinSlices(p, at + skip, at + skip + copied, at + skip + remaining);
      if copied < remaining {
        ReadFromIsView(encrypted, k, raw, at + n, NextSectorOffset(sectorOffset, copied), 0, remaining - copied);
      } else {
        assert p[at + skip + copied..at + skip + remaining] == [];
      }
    }
  }

  lemma ChunkIsView(encrypted: bool, k: Keys, raw: seq<byte>, at: nat, sectorOffset: nat, n: nat)
    requires |raw| % BLOCK_LEN == 0 && |raw| < OFFSET_LIMIT && at % BLOCK_LEN == 0 && n % BLOCK_LEN == 0
    requires 0 < n && at + n <= |raw| && at % SECTOR_SIZE + n <= SECTOR_SIZE
    requires sectorOffset < SECTOR_SIZE && sectorOffset / BLOCK_LEN == at % SECTOR_SIZE / BLOCK_LEN
    ensures Decrypted(encrypted, k, at, sectorOffset, raw[at..at + n]) == View(encrypted, k, raw)[at..at + n]
  {
    hide Plain, Process;
    if encrypted {
      DecryptedChunkIsView(k, raw, at, n, sectorOffset);
    }
  }

  lemma BlockSplit(offset: nat)
    ensures var at, skip := offset - offset % BLOCK_LEN, offset % BLOCK_LEN;
            at % BLOCK_LEN == 0 && offset % SECTOR_SIZE == at % SECTOR_SIZE + skip
  {
    Division.BlockThenSector(offset);
  }

  /** Read refinement: on a range that meets the condition nand_read returns the view's slice. */
  lemma ReadIsView(encrypted: bool, k: Keys, raw: seq<byte>, offset: nat, size: nat)
    requires |raw| % BLOCK_LEN == 0 && offset + size <= |raw| < OFFSET_LIMIT
    requires size > 0 ==> Chunked(offset, size)
    ensures Read(encrypted, k, raw, offset, size) == View(encrypted, k, raw)[offset..offset + size]
  {
    hide View, ReadFrom, Chunked;
    var at, skip := offset - offset % BLOCK_LEN, offset % BLOCK_LEN;
    BlockSplit(offset);
    ReadFromIsView(encrypted, k, raw, at, offset % SECTOR_SIZE, skip, size);
  }
}
