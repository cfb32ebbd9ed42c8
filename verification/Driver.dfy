/**
 nand_read and nand_write of driver.c on the partition table of driver.h: one image file per partition,
 or all five inside one raw image, each behind a seek position and a lock.
 */
module Driver {
  import opened Bytes
  import opened BlockCipher
  import opened Tweak
  import opened Xtsn
  import opened PlainView
  import opened ReadLoop
  import opened ReadBytes
  import Spec = DriverSpec
  import Division

  const KEY_SIZE: nat := 32
  const ID_NAND: int := 0
  const PARTITION_COUNT: nat := 5
  const RAW_USERPARTITION_BASE: nat := 0x0180_0000
  const RAW_END: nat := RAW_USERPARTITION_BASE + 0x7_2780_0000
  const WRITE_SIZE: nat := 0x10
  const INT_MAX: nat := 0x7fff_ffff

  // Error codes, returned negated.
  const ENOENT: int := 2
  const EINVAL: int := 22

  datatype PartitionInfo = PartitionInfo(
    name: string, partitionOffset: nat, partitionSize: nat, encrypted: bool, id: int,
    tweakKey: seq<byte>, cryptKey: seq<byte>)

  /** Entry `i` of the table, with its keys filled in. */
  function TableEntry(i: nat, tweakKey: seq<byte>, cryptKey: seq<byte>): PartitionInfo
    requires i < PARTITION_COUNT
  {
    if i == 0 then PartitionInfo("PRODINFO", 0x0000_4400, 0x003F_BC00, true, 1, tweakKey, cryptKey)
    else if i == 1 then PartitionInfo("PRODINFOF", 0x0040_0000, 0x0040_0000, true, 2, tweakKey, cryptKey)
    else if i == 2 then PartitionInfo("SAFE", 0x0380_0000, 0x0400_0000, true, 3, tweakKey, cryptKey)
    else if i == 3 then PartitionInfo("SYSTEM", 0x0780_0000, 0xA000_0000, true, 4, tweakKey, cryptKey)
    else PartitionInfo("USER", 0xA780_0000, 0x6_8000_0000, true, 5, tweakKey, cryptKey)
  }

  function KeysOf(info: PartitionInfo): Keys
    requires |info.tweakKey| == KEY_SIZE && |info.cryptKey| == KEY_SIZE
  {
    Keys(Aes128(info.cryptKey), Aes128(info.tweakKey))
  }

  ghost predicate InTable(info: PartitionInfo, i: nat) {
    && i < PARTITION_COUNT && |info.tweakKey| == KEY_SIZE && |info.cryptKey| == KEY_SIZE
    && info == TableEntry(i, info.tweakKey, info.cryptKey)
  }

  /** Two entries have different names and disjoint ranges, every size is whole blocks, and the image holds all. */
  lemma TableFacts(a: PartitionInfo, i: nat, b: PartitionInfo, j: nat)
    requires InTable(a, i) && InTable(b, j)
    ensures 0 < a.partitionSize && a.partitionSize % BLOCK_LEN == 0 && a.encrypted
    ensures RAW_USERPARTITION_BASE + a.partitionOffset + a.partitionSize <= RAW_END < OFFSET_LIMIT
    ensures i != j ==> a.name != b.name
    ensures i < j ==> a.partitionOffset + a.partitionSize <= b.partitionOffset
  {
    assert "SAFE"[0] == 'S' && "USER"[0] == 'U';
  }

  // ---- the table and the keys against what is promised ----

  lemma NamesInTable(info: PartitionInfo, i: nat, path: string)
    requires InTable(info, i)
    ensures Strip(path) == info.name <==> Spec.Names(path, info.name)
  {
    hide Strip;
    NameWithoutSlash(info, i);
    if |path| > 0 && path[0] == '/' {
      assert path == "/" + path[1..];
    }
    StripOnce(path);
    assert ("/" + info.name)[1..] == info.name && ("/" + info.name)[0] == '/';
  }

  lemma NameWithoutSlash(info: PartitionInfo, i: nat)
    requires InTable(info, i)
    ensures |info.name| > 0 && info.name[0] != '/'
  { }

  lemma StripOnce(path: string)
    ensures Strip(path) == if |path| > 0 && path[0] == '/' then path[1..] else path
  { }

  /** Where the raw image holds the entry. */
  lemma RangeInTable(info: PartitionInfo, i: nat)
    requires InTable(info, i)
    ensures info.encrypted && RAW_USERPARTITION_BASE + info.partitionOffset == Spec.ImageStart(info.name)
    ensures info.partitionSize == Spec.ImageEnd(info.name) - Spec.ImageStart(info.name)
    ensures info.partitionSize % 16 == 0 && info.partitionSize > 0
  {
    assert "SAFE"[0] == 'S' && "USER"[0] == 'U';
  }

  lemma AdmittedIsChunked(offset: nat, size: nat)
    ensures Spec.Admitted(offset, size) <==> size > 0 && Chunked(offset, size)
  { }

  /** The plaintext of one byte, by the two keys of the entry. */
  lemma PlainByKeys(info: PartitionInfo, c: seq<byte>, q: nat)
    requires |info.tweakKey| == KEY_SIZE && |info.cryptKey| == KEY_SIZE
    requires |c| % BLOCK_LEN == 0 && q < |c| < OFFSET_LIMIT
    ensures 16 * (q / 16 + 1) <= |c|
    ensures Plain(KeysOf(info), c)[q] == Spec.PlainByte(info.tweakKey, info.cryptKey, c, q)
  {
    hide XorBlock, Alpha, GenIv, Aes128, BlockAt;
    Division.BlockThenSector(q);
    BlockOfSum(0, q, |c|);
    SectorOfByte(q);
  }

  lemma SectorOfByte(q: nat)
    requires q < OFFSET_LIMIT
    ensures SectorOf(q / 16) == q / 0x4000 && q / 16 % SECTOR_BLOCKS == q % 0x4000 / 16
  {
    var s, r := q / 0x4000, q % 0x4000;
    assert q == 0x4000 * s + r;
    Division.DivUnique(q, 16, 1024 * s + r / 16, r % 16);
    Division.DivUnique(q / 16, SECTOR_BLOCKS, s, r / 16);
  }

  /** A byte of the answer, by the two keys of the entry. */
  lemma AnswerByKeys(info: PartitionInfo, c: seq<byte>, offset: nat, size: nat, i: nat)
    requires |info.tweakKey| == KEY_SIZE && |info.cryptKey| == KEY_SIZE
    requires i < size && offset + size <= |c| < OFFSET_LIMIT
    ensures ReadByte(true, KeysOf(info), c, offset, size, i)
         == Spec.AnswerByte(info.tweakKey, info.cryptKey, c, offset, size, i)
  {
    hide XorBlock, Alpha, GenIv, Aes128, BlockAt;
    var skip := offset % 16;
    if size >= skip && skip + i < CipherEnd(offset, size) {
      CipherInside(offset, size, i);
      var at, q := offset - skip + 0x400 * ((skip + i) / 0x400), (skip + i) % 0x400;
      BlockSplit(offset);
      ChunkOf(offset - skip, skip + i);
      BlockOfSplit(at, q);
    }
  }

  lemma BlockOfSplit(at: nat, q: nat)
    requires at % 16 == 0
    ensures (at + q) / 16 == at / 16 + q / 16 && (at + q) % 16 == q % 16
  {
    Division.AddBlocks(q, at);
  }

  /** The size clamp, in unsigned 64-bit arithmetic. */
  function Clamp(size: u64, offset: u64, partitionSize: u64): (r: u64)
    ensures offset <= partitionSize && size + offset < TWO64 ==> offset + r <= partitionSize && r <= size
  {
    if (size + offset) % TWO64 > partitionSize then (partitionSize - offset) % TWO64 else size
  }

  /**
   The clamp keeps the range inside the partition exactly when the offset was inside and the sum did not wrap.
   Otherwise it gives more than any buffer holds, for any offset that off_t can hold.
   */
  lemma ClampFitsIff(size: u64, offset: u64, partitionSize: u64)
    requires partitionSize < OFFSET_LIMIT
    ensures size > 0 ==>
      (offset + Clamp(size, offset, partitionSize) <= partitionSize
       <==> offset <= partitionSize && size + offset < TWO64)
    ensures offset < OFFSET_LIMIT ==>
      (Clamp(size, offset, partitionSize) < OFFSET_LIMIT <==> offset <= partitionSize && size + offset < TWO64)
    ensures offset <= partitionSize && size + offset < TWO64 ==>
      Clamp(size, offset, partitionSize) == if size + offset > partitionSize then partitionSize - offset else size
  { }

  /** An open stream with its mutex: struct file_info, the file's bytes in place of its path. */
  class FileInfo {
    const partition: PartitionInfo
    var active: bool
    var locked: bool
    var data: seq<byte>
    var pos: nat

    /** A file not mounted yet. */
    constructor (partition: PartitionInfo)
      ensures this.partition == partition && !active && !locked && data == [] && pos == 0
    {
      this.partition := partition;
      active, locked, data, pos := false, false, [], 0;
    }

    method Lock()
      requires !locked
      modifies this`locked
      ensures locked
    {
      locked := true;
    }

    method Unlock()
      requires locked
      modifies this`locked
      ensures !locked
    {
      locked := false;
    }

    method Seek(p: nat)
      requires locked && p <= |data|
      modifies this`pos
      ensures pos == p
    {
      pos := p;
    }

    /** fread into the start of `buf`: as many bytes as there are, up to `n`. */
    method Read(buf: array<byte>, n: nat) returns (got: nat)
      requires locked && n <= buf.Length && pos <= |data|
      modifies this`pos, buf
      ensures got == if old(pos) + n <= |data| then n else |data| - old(pos)
      ensures pos == old(pos) + got
      ensures buf[..] == data[old(pos)..old(pos) + got] + old(buf[got..])
    {
      got := if pos + n <= |data| then n else |data| - pos;
      ghost var was := buf[..];
      CopyInto(buf, 0, data[pos..pos + got]);
      assert Put(was, 0, data[pos..pos + got]) == data[pos..pos + got] + was[got..];
      pos := pos + got;
    }

    /** fwrite of the first `n` bytes of `buf`, over what the file holds from the position on. */
    method Write(buf: array<byte>, n: nat) returns (put: nat)
      requires locked && n <= buf.Length && pos + n <= |data|
      modifies this`pos, this`data
      ensures put == n && pos == old(pos) + n
      ensures data == Put(old(data), old(pos), buf[..n])
    {
      data := Put(data, pos, buf[..n]);
      pos := pos + n;
      put := n;
    }
  }

  /** memset to zero. */
  method Clear(to: array<byte>, n: nat)
    requires n <= to.Length
    modifies to
    ensures to[..] == Zeros(n) + old(to[n..])
  {
    for i := 0 to n
      invariant forall k :: 0 <= k < to.Length ==> to[k] == if k < i then 0 else old(to[k])
    {
      to[i] := 0;
    }
  }

  /**
   One locked read of `n` bytes at `at` and its decryption, into a buffer whose first `clear` bytes are
   zeroed before.
   */
  method FetchChunk(file: FileInfo, start: nat, info: PartitionInfo, readBuf: array<byte>,
                    clear: nat, n: nat, at: nat, sectorOffset: nat)
    requires |info.tweakKey| == KEY_SIZE && |info.cryptKey| == KEY_SIZE
    requires 0 < n <= clear <= READ_SIZE == readBuf.Length
    requires !file.locked && start + at + n <= |file.data| && at < OFFSET_LIMIT && sectorOffset < SECTOR_SIZE
    modifies file`locked, file`pos, readBuf
    ensures !file.locked
    ensures readBuf[..n]
         == Decrypted(info.encrypted, KeysOf(info), at, sectorOffset, file.data[start + at..start + at + n])
    ensures info.encrypted ==>
      Spec.Chunk(info.tweakKey, info.cryptKey, file.data[start + at..start + at + n], at, sectorOffset, readBuf[..n])
    ensures clear == READ_SIZE ==> readBuf[n..] == Zeros(READ_SIZE - n)
  {
    hide Aes128, Process, Processed, Put, Spec.Chunk;
    var sector := at / SECTOR_SIZE;
    var tweakHi: u64 := sector / 0x8000_0000_0000_0000;
    var tweakLo: u64 := sector;
    ChunkByKeys(info, at, sectorOffset, file.data[start + at..start + at + n]);
    Clear(readBuf, clear);
    file.Lock();
    file.Seek(start + at);
    var got := file.Read(readBuf, n);
    file.Unlock();
    assert got == n;
    ghost var c, rest := file.data[start + at..start + at + n], readBuf[n..];
    assert readBuf[0..n] == c;
    if info.encrypted {
      assert tweakHi == 0;
      ghost var was := readBuf[..];
      ghost var k := KeysOf(info);
      OneSectorCall(false, k.crypt, k.tweak, 0, sector, SECTOR_SIZE, sectorOffset, n, was, 0);
      XtsnProcess(false, readBuf, 0, n, info.cryptKey, info.tweakKey, tweakHi, tweakLo, SECTOR_SIZE, sectorOffset);
      PutAtStart(was, Process(false, k.crypt, k.tweak, 0, sector, SECTOR_SIZE, sectorOffset, c));
    }
    assert readBuf[n..] == rest;
  }

  lemma ChunkByKeys(info: PartitionInfo, at: nat, sectorOffset: nat, c: seq<byte>)
    requires |info.tweakKey| == KEY_SIZE && |info.cryptKey| == KEY_SIZE
    requires at < OFFSET_LIMIT && sectorOffset < SECTOR_SIZE
    ensures info.encrypted ==>
      Spec.Chunk(info.tweakKey, info.cryptKey, c, at, sectorOffset,
                 Decrypted(info.encrypted, KeysOf(info), at, sectorOffset, c))
  {
    hide Aes128, Process, XorBlock, Alpha, GenIv, BlockAt;
    var k, lo := KeysOf(info), at / SECTOR_SIZE;
    ProcessClosedForm(false, k.crypt, k.tweak, 0, lo, SECTOR_SIZE, sectorOffset, c, 0);
    forall j: nat | 16 * (j + 1) <= |c|
      ensures var t := Alpha(k.tweak.enc(GenIv(0, lo)), sectorOffset / 16 + j);
              BlockAt(Process(false, k.crypt, k.tweak, 0, lo, SECTOR_SIZE, sectorOffset, c), j) ==
              XorBlock(k.crypt.dec(XorBlock(BlockAt(c, j), t)), t)
    {
      ProcessClosedForm(false, k.crypt, k.tweak, 0, lo, SECTOR_SIZE, sectorOffset, c, j);
    }
  }

  lemma PutAtStart(s: seq<byte>, b: seq<byte>)
    requires |b| <= |s|
    ensures Put(s, 0, b) == b + s[|b|..]
  { }

  /** What a write is told from: one file, the partition in it, its view, and the other files. */
  datatype Snapshot = Snapshot(data: seq<byte>, raw: seq<byte>, view: seq<byte>, others: map<FileInfo, seq<byte>>)

  /** What the name lookups make of a path. */
  function Strip(path: string): string {
    if |path| > 0 && path[0] == '/' then path[1..] else path
  }

  /** The driver's state: the raw image and the five partition files. */
  class Driver {
    const rawInfo: FileInfo
    const userPartitions: seq<FileInfo>

    /** The initial state, with the keys of the five partitions loaded and nothing mounted. */
    constructor (tweakKeys: seq<seq<byte>>, cryptKeys: seq<seq<byte>>)
      requires |tweakKeys| == |cryptKeys| == PARTITION_COUNT
      requires forall i :: 0 <= i < PARTITION_COUNT ==> |tweakKeys[i]| == |cryptKeys[i]| == KEY_SIZE
      ensures Valid() && fresh(Files())
      ensures !rawInfo.active && forall i :: 0 <= i < PARTITION_COUNT ==> !userPartitions[i].active
      ensures forall i :: 0 <= i < PARTITION_COUNT ==>
        userPartitions[i].partition == TableEntry(i, tweakKeys[i], cryptKeys[i])
      ensures forall i :: 0 <= i < PARTITION_COUNT ==>
        userPartitions[i].partition.tweakKey == tweakKeys[i] && userPartitions[i].partition.cryptKey == cryptKeys[i]
    {
      var raw := new FileInfo(PartitionInfo("NAND", 0, 0xFFFF_FFFF_FFFF, false, ID_NAND, [], []));
      var files: seq<FileInfo> := [];
      for i := 0 to PARTITION_COUNT
        invariant |files| == i && fresh(files) && raw !in files
        invariant forall j, k :: 0 <= j < k < i ==> files[j] != files[k]
        invariant forall j :: 0 <= j < i ==> files[j].partition == TableEntry(j, tweakKeys[j], cryptKeys[j])
        invariant forall f :: f in files + [raw] ==> !f.active && !f.locked
      {
        var file := new FileInfo(TableEntry(i, tweakKeys[i], cryptKeys[i]));
        files := files + [file];
      }
      rawInfo, userPartitions := raw, files;
    }

    ghost function Files(): set<FileInfo> {
      {rawInfo} + set f | f in userPartitions
    }

    ghost predicate Tabled() {
      && |userPartitions| == PARTITION_COUNT
      && forall i :: 0 <= i < PARTITION_COUNT ==> InTable(userPartitions[i].partition, i)
    }

    /** Distinct files with the table's entries, large enough for what is mounted on them. */
    ghost predicate Laid()
      reads Files()`active, Files()`data
    {
      && Tabled()
      && rawInfo !in userPartitions
      && (forall i, j :: 0 <= i < j < PARTITION_COUNT ==> userPartitions[i] != userPartitions[j])
      && rawInfo.partition.id == ID_NAND
      && (if rawInfo.active then RAW_END <= |rawInfo.data| < OFFSET_LIMIT
          else forall i :: 0 <= i < PARTITION_COUNT && userPartitions[i].active ==>
            userPartitions[i].partition.partitionSize <= |userPartitions[i].data| < OFFSET_LIMIT)
    }

    ghost predicate Idle()
      reads Files()`locked
    {
      forall f :: f in Files() ==> !f.locked
    }

    ghost predicate Valid()
      reads Files()
    {
      Laid() && Idle()
    }

    /** Partition `i` is mounted under this path. */
    ghost predicate Named(path: string, i: nat)
      requires |userPartitions| == PARTITION_COUNT
      reads Files()`active
    {
      i < PARTITION_COUNT && userPartitions[i].active && userPartitions[i].partition.name == Strip(path)
    }

    /** The file that holds partition `i`, and where in it the partition starts. */
    ghost function Backing(i: nat): FileInfo
      requires i < PARTITION_COUNT == |userPartitions|
      reads rawInfo`active
    {
      if rawInfo.active then rawInfo else userPartitions[i]
    }

    ghost function Start(i: nat): nat
      requires i < PARTITION_COUNT == |userPartitions|
      reads rawInfo`active
    {
      if rawInfo.active then RAW_USERPARTITION_BASE + userPartitions[i].partition.partitionOffset else 0
    }

    ghost predicate Mounted(i: nat)
      reads Files()`active, Files()`data
    {
      Laid() && i < PARTITION_COUNT && userPartitions[i].active
    }

    /** The ciphertext of partition `i`. */
    ghost function Cipher(i: nat): (c: seq<byte>)
      requires Mounted(i)
      reads Files()`active, Files()`data
      ensures |c| == userPartitions[i].partition.partitionSize && |c| % BLOCK_LEN == 0 && |c| < OFFSET_LIMIT
    {
      var info := userPartitions[i].partition;
      TableFacts(info, i, info, i);
      Backing(i).data[Start(i)..Start(i) + info.partitionSize]
    }

    /** Its plaintext. */
    ghost function Contents(i: nat): (p: seq<byte>)
      requires Mounted(i)
      reads Files()`active, Files()`data
      ensures |p| == |Cipher(i)|
    {
      var info := userPartitions[i].partition;
      View(info.encrypted, KeysOf(info), Cipher(i))
    }

    lemma NamedOnce(path: string, i: nat, j: nat)
      requires Laid() && Named(path, i) && Named(path, j)
      ensures i == j
    {
      TableFacts(userPartitions[i].partition, i, userPartitions[j].partition, j);
    }

    /** The backing file of a mounted partition covers it. */
    lemma BackingCovers(i: nat)
      requires Mounted(i)
      ensures |userPartitions| == PARTITION_COUNT && Backing(i) in Files()
      ensures InTable(userPartitions[i].partition, i) && userPartitions[i].active
      ensures var info := userPartitions[i].partition;
              && Start(i) + info.partitionSize <= |Backing(i).data|
              && info.partitionSize < OFFSET_LIMIT
              && (Backing(i).partition.id == ID_NAND <==> rawInfo.active)
              && Cipher(i) == Backing(i).data[Start(i)..Start(i) + info.partitionSize]
    {
      var info := userPartitions[i].partition;
      TableFacts(info, i, info, i);
    }

    /** The partition mounted under this path, if there is one. */
    ghost function Lookup(path: string): (r: int)
      requires |userPartitions| == PARTITION_COUNT
      reads Files()`active
      ensures r == -2 <==> forall i: nat :: !Named(path, i)
      ensures r == -2 || (0 <= r && Named(path, r))
    {
      if i: nat :| Named(path, i) then i else -2
    }

    /** No mounted partition has this name, with or without a leading slash. */
    ghost predicate Unnamed(path: string)
      requires |userPartitions| == PARTITION_COUNT
      reads Files()`active
    {
      forall i: nat :: i < 5 && userPartitions[i].active ==> !Spec.Names(path, userPartitions[i].partition.name)
    }

    /** `r` is the one mounted partition of this name, or -2 if there is none. */
    ghost predicate ByName(path: string, r: int)
      requires |userPartitions| == PARTITION_COUNT
      reads Files()`active
    {
      && (r == -2 <==> Unnamed(path))
      && forall i: nat :: i < 5 && userPartitions[i].active ==>
        (r == i <==> Spec.Names(path, userPartitions[i].partition.name))
    }

    lemma LookupByName(path: string)
      requires Laid()
      ensures ByName(path, Lookup(path))
    {
      hide Strip, TableEntry;
      forall i: nat | i < 5 && userPartitions[i].active
        ensures Named(path, i) <==> Spec.Names(path, userPartitions[i].partition.name)
        ensures Named(path, i) ==> Lookup(path) == i
      {
        NamesInTable(userPartitions[i].partition, i, path);
        if Named(path, i) {
          NamedOnce(path, Lookup(path), i);
        }
      }
    }

    /** On a raw image each partition is the range the numbers give, otherwise the beginning of its own file. */
    lemma CipherInImage(i: nat)
      requires Mounted(i)
      ensures var name := userPartitions[i].partition.name;
              if rawInfo.active then
                && Spec.ImageEnd(name) <= |rawInfo.data|
                && Cipher(i) == rawInfo.data[Spec.ImageStart(name)..Spec.ImageEnd(name)]
              else
                && Spec.ImageEnd(name) - Spec.ImageStart(name) <= |userPartitions[i].data|
                && Cipher(i) == userPartitions[i].data[..Spec.ImageEnd(name) - Spec.ImageStart(name)]
    {
      hide TableEntry;
      BackingCovers(i);
      RangeInTable(userPartitions[i].partition, i);
    }

    /** The plaintext of block `b` by the two keys: sector number b div 1024, alpha^(b mod 1024). */
    lemma ContentsByKeys(i: nat, b: nat)
      requires Mounted(i) && BLOCK_LEN * (b + 1) <= |Cipher(i)|
      ensures b / 1024 < TWO64 && InTable(userPartitions[i].partition, i)
      ensures var info := userPartitions[i].partition;
              var t := Alpha(Aes128(info.tweakKey).enc(GenIv(0, b / 1024)), b % 1024);
              BlockAt(Contents(i), b) == XorBlock(Aes128(info.cryptKey).dec(XorBlock(BlockAt(Cipher(i), b), t)), t)
    {
      hide XorBlock, Alpha, GenIv, Aes128, BlockAt, Plain, TableEntry;
      var info := userPartitions[i].partition;
      RangeInTable(info, i);
      PlainAt(KeysOf(info), Cipher(i), b);
    }

    /** And of every byte. */
    lemma ContentsBytes(i: nat)
      requires Mounted(i)
      ensures InTable(userPartitions[i].partition, i)
      ensures var info := userPartitions[i].partition;
              Spec.PlainFrom(info.tweakKey, info.cryptKey, Cipher(i), 0, Contents(i))
    {
      hide Spec.PlainByte, TableEntry, KeysOf, Plain;
      var info := userPartitions[i].partition;
      RangeInTable(info, i);
      forall q: nat | q < |Cipher(i)|
        ensures 16 * (q / 16 + 1) <= |Cipher(i)|
        ensures Contents(i)[q] == Spec.PlainByte(info.tweakKey, info.cryptKey, Cipher(i), q)
      {
        PlainByKeys(info, Cipher(i), q);
      }
    }

    /** What the read loop makes of `n` bytes at `offset` of partition `i`. */
    ghost function Fetched(i: nat, offset: nat, n: nat): (r: seq<byte>)
      requires Mounted(i) && offset + n <= |Cipher(i)|
      reads Files()`active, Files()`data
      ensures |r| == n
    {
      var info := userPartitions[i].partition;
      Read(info.encrypted, KeysOf(info), Cipher(i), offset, n)
    }

    /** The bytes a call for `size` bytes at `offset` reaches. */
    ghost function Clamped(i: nat, size: u64, offset: u64): u64
      requires Mounted(i)
      reads Files()`active, Files()`data
    {
      Clamp(size, offset, userPartitions[i].partition.partitionSize)
    }

    /** The offset is one that off_t holds, and the result one that an int holds. */
    ghost predicate InRange(i: nat, size: u64, offset: u64)
      requires Mounted(i)
      reads Files()`active, Files()`data
    {
      offset < OFFSET_LIMIT && Clamped(i, size, offset) <= INT_MAX
    }

    lemma RangeInside(i: nat, size: u64, offset: u64)
      requires Mounted(i) && InRange(i, size, offset)
      ensures userPartitions[i].partition.partitionSize == |Cipher(i)| < OFFSET_LIMIT
      ensures offset + Clamped(i, size, offset) <= |Cipher(i)|
      ensures Clamped(i, size, offset) == Spec.Reached(|Cipher(i)|, size, offset)
    {
      ClampFitsIff(size, offset, userPartitions[i].partition.partitionSize);
    }

    lemma LookupMounted(path: string)
      requires Laid() && Lookup(path) >= 0
      ensures Mounted(Lookup(path))
    { }

    method GetPartitionInfo(path: string) returns (r: int, info: PartitionInfo)
      requires Valid()
      ensures r == Lookup(path)
      ensures r >= 0 ==> info == userPartitions[r].partition
      ensures ByName(path, r)
    {
      LookupByName(path);
      info := rawInfo.partition;
      var name := Strip(path);
      for i := 0 to PARTITION_COUNT
        invariant forall j: nat :: j < i ==> !Named(path, j)
      {
        if !userPartitions[i].active {
          continue;
        }
        if name == userPartitions[i].partition.name {
          assert Named(path, i);
          NamedOnce(path, Lookup(path), i);
          return i, userPartitions[i].partition;
        }
      }
      return -2, info;
    }

    method GetPartitionFileInfo(path: string) returns (r: int, info: FileInfo)
      requires Valid()
      ensures info in Files()
      ensures rawInfo.active ==> r == ID_NAND && info == rawInfo
      ensures !rawInfo.active ==> r == Lookup(path)
      ensures !rawInfo.active && r >= 0 ==> info == userPartitions[r]
      ensures !rawInfo.active ==> ByName(path, r)
      ensures Lookup(path) >= 0 ==> r >= 0 && info == Backing(Lookup(path))
    {
      LookupByName(path);
      var name := Strip(path);
      if rawInfo.active {
        return ID_NAND, rawInfo;
      }
      for i := 0 to PARTITION_COUNT
        invariant forall j: nat :: j < i ==> !Named(path, j)
      {
        if !userPartitions[i].active {
          continue;
        }
        if name == userPartitions[i].partition.name {
          assert Named(path, i);
          NamedOnce(path, Lookup(path), i);
          return i, userPartitions[i];
        }
      }
      return -2, rawInfo;
    }

    /** nand_read once the size is clamped. */
    method ReadPartition(i: nat, file: FileInfo, buf: array<byte>, n: nat, offset: nat)
      requires Mounted(i) && Idle() && file == Backing(i)
      requires 0 < n <= buf.Length && offset + n <= |Cipher(i)|
      modifies file`locked, file`pos, buf
      ensures Idle()
      ensures buf[..] == Put(old(buf[..]), 0, old(Fetched(i, offset, n)))
    {
      hide View, Put, Read, TableEntry, Laid;
      BackingCovers(i);
      var info := userPartitions[i].partition;
      var start := 0;
      if file.partition.id == ID_NAND {
        start := RAW_USERPARTITION_BASE + info.partitionOffset;
      }
      assert start == Start(i);
      ReadChunks(file, start, info, buf, n, offset);
    }

    /** The same, as what the request was for. */
    method ReadRange(path: string, i: nat, file: FileInfo, buf: array<byte>, ghost size: u64, n: nat, offset: u64)
      requires Valid() && Lookup(path) == i && Mounted(i) && file == Backing(i)
      requires 0 < n <= buf.Length && offset + n <= |Cipher(i)|
      requires InRange(i, size, offset) && n == Clamped(i, size, offset)
      modifies file`locked, file`pos, buf
      ensures Valid() && ReadResult(path, size, offset, n, old(buf[..]), buf[..])
      ensures Answered(path, size, offset, n, old(buf[..]), buf[..])
    {
      hide View, Put, Read, Clamp, TableEntry, Laid, Fetched, Lookup, Cipher, Contents, KeysOf, Answered, InRange,
        Backing, Start, ReadResult;
      AnsweredAsPromised(path, size, offset, buf[..]);
      ReadPartition(i, file, buf, n, offset);
    }

    method NandRead(path: string, buf: array<byte>, size: u64, offset: u64) returns (r: int)
      requires Valid()
      requires var i := Lookup(path); i >= 0 ==> InRange(i, size, offset) && Clamped(i, size, offset) <= buf.Length
      modifies buf, Files()`locked, Files()`pos
      ensures Valid()
      ensures ReadResult(path, size, offset, r, old(buf[..]), buf[..])
      ensures Answered(path, size, offset, r, old(buf[..]), buf[..])
    {
      hide View, Put, Read, Clamp, TableEntry, Laid, Fetched, Named, ByName, Lookup, Cipher, Contents, KeysOf, Answered,
        InRange, Backing, Start, ReadResult;
      AnsweredAsPromised(path, size, offset, buf[..]);
      var i, info := GetPartitionInfo(path);
      if i < 0 {
        return -ENOENT;
      }
      LookupMounted(path);
      var fileIndex, file := GetPartitionFileInfo(path);
      if fileIndex < 0 {
        return -ENOENT;
      }
      RangeInside(i, size, offset);
      var n := Clamp(size, offset, info.partitionSize);
      if n == 0 {
        return -EINVAL;
      }
      ReadRange(path, i, file, buf, size, n, offset);
      r := n;
    }

    /** What the read loop makes of a request is the promised answer. */
    lemma FetchedBytes(i: nat, offset: nat, n: nat)
      requires Mounted(i) && offset + n <= |Cipher(i)| && n > 0
      ensures InTable(userPartitions[i].partition, i)
      ensures var info := userPartitions[i].partition;
              && Spec.Answer(info.tweakKey, info.cryptKey, Cipher(i), offset, Fetched(i, offset, n))
              && (Spec.Admitted(offset, n) ==>
                    Spec.PlainFrom(info.tweakKey, info.cryptKey, Cipher(i), offset, Fetched(i, offset, n)))
    {
      hide Spec.AnswerByte, Spec.PlainByte, Spec.Admitted, TableEntry, KeysOf, Read, ReadByte, Contents;
      var info := userPartitions[i].partition;
      RangeInTable(info, i);
      forall j: nat | j < n
        ensures Fetched(i, offset, n)[j] == Spec.AnswerByte(info.tweakKey, info.cryptKey, Cipher(i), offset, n, j)
      {
        ReadBytesAre(true, KeysOf(info), Cipher(i), offset, n, j);
        AnswerByKeys(info, Cipher(i), offset, n, j);
      }
      AdmittedIsChunked(offset, n);
      if Spec.Admitted(offset, n) {
        FetchedIsContents(i, offset, n);
        ContentsBytes(i);
      }
    }

    lemma NothingReached(i: nat, size: u64, offset: u64, buf: seq<byte>)
      requires Mounted(i) && InRange(i, size, offset) && Clamped(i, size, offset) == 0
      ensures var info := userPartitions[i].partition;
              && Spec.ReadAs(info.tweakKey, info.cryptKey, Cipher(i), size, offset, -22, buf, buf)
              && Spec.WrittenAs(info.tweakKey, info.cryptKey, Cipher(i), Cipher(i), size, offset, -22, buf)
    {
      hide TableEntry, Cipher, Clamp;
      RangeInside(i, size, offset);
    }

    lemma ReadAsPromised(i: nat, size: u64, offset: u64, n: nat, before: seq<byte>, after: seq<byte>)
      requires Mounted(i) && InRange(i, size, offset) && n == Clamped(i, size, offset) && 0 < n <= |before|
      requires offset + n <= |Cipher(i)| && after == Put(before, 0, Fetched(i, offset, n))
      ensures var info := userPartitions[i].partition;
              Spec.ReadAs(info.tweakKey, info.cryptKey, Cipher(i), size, offset, n, before, after)
    {
      hide TableEntry, Cipher, Clamp, Fetched, Spec.Answer, Spec.PlainFrom, Spec.Admitted, Put;
      RangeInside(i, size, offset);
      FetchedBytes(i, offset, n);
      PutAtStart(before, Fetched(i, offset, n));
      assert after[..n] == Fetched(i, offset, n);
      assert after[n..] == before[n..];
    }

    /** What a read returns and leaves in the buffer, by the loop of nand_read. */
    ghost predicate ReadResult(path: string, size: u64, offset: u64, r: int, before: seq<byte>, after: seq<byte>)
      reads Files()`active, Files()`data
    {
      && Laid()
      && var i := Lookup(path);
      if i < 0 then r == -ENOENT && after == before
      else if Clamped(i, size, offset) == 0 then r == -EINVAL && after == before
      else
        && r == Clamped(i, size, offset) && offset + r <= |Cipher(i)| && r <= |before|
        && after == Put(before, 0, Fetched(i, offset, r))
    }

    /**
     The answer to a read, told by name: -2 if no mounted partition has the name, otherwise what is promised of
     the one that has it.
     */
    ghost predicate Answered(path: string, size: u64, offset: u64, r: int, before: seq<byte>, after: seq<byte>)
      reads Files()`active, Files()`data
    {
      && Laid() && (r == -2 <==> Unnamed(path))
      && forall i: nat :: i < 5 && userPartitions[i].active && Spec.Names(path, userPartitions[i].partition.name) ==>
        var info := userPartitions[i].partition;
        Spec.ReadAs(info.tweakKey, info.cryptKey, Cipher(i), size, offset, r, before, after)
    }

    /** What nand_read returns and leaves in the buffer is that answer. */
    lemma AnsweredAsPromised(path: string, size: u64, offset: u64, before: seq<byte>)
      requires Laid()
      requires var i := Lookup(path); i >= 0 ==> InRange(i, size, offset) && Clamped(i, size, offset) <= |before|
      ensures var i := Lookup(path);
              if i < 0 then
                Answered(path, size, offset, -2, before, before) && ReadResult(path, size, offset, -2, before, before)
              else if Clamped(i, size, offset) == 0 then
                Answered(path, size, offset, -22, before, before) && ReadResult(path, size, offset, -22, before, before)
              else
                var n := Clamped(i, size, offset);
                && offset + n <= |Cipher(i)|
                && var after := Put(before, 0, Fetched(i, offset, n));
                Answered(path, size, offset, n, before, after) && ReadResult(path, size, offset, n, before, after)
    {
      hide TableEntry, Cipher, Clamp, Fetched, Spec.ReadAs, Spec.Names, Put, Named;
      LookupByName(path);
      var i := Lookup(path);
      if i >= 0 {
        LookupMounted(path);
        RangeInside(i, size, offset);
        var n := Clamped(i, size, offset);
        if n == 0 {
          NothingReached(i, size, offset, before);
        } else {
          ReadAsPromised(i, size, offset, n, before, Put(before, 0, Fetched(i, offset, n)));
        }
      }
    }

    /** The contents of the files that do not hold partition `i`. */
    ghost function Others(i: nat): map<FileInfo, seq<byte>>
      requires i < PARTITION_COUNT == |userPartitions|
      reads Files()`active, Files()`data
    {
      map f | f in Files() && f != Backing(i) :: f.data
    }

    /** Nothing changed since the old state but bytes of partition `i`. */
    twostate predicate OnlyChanged(i: nat)
      reads Files()
    {
      && Mounted(i) && Others(i) == old(Others(i))
      && Start(i) + |Cipher(i)| <= |Backing(i).data| == |old(Backing(i).data)|
      && Backing(i).data == Put(old(Backing(i).data), Start(i), Cipher(i))
    }

    /** A whole block inside a partition is always in range, and is read as the view has it. */
    lemma BlockInRange(path: string, i: nat, at: u64)
      requires Mounted(i) && at % BLOCK_LEN == 0 && at + BLOCK_LEN <= |Cipher(i)|
      ensures InRange(i, WRITE_SIZE, at) && Clamped(i, WRITE_SIZE, at) == WRITE_SIZE
      ensures Fetched(i, at, WRITE_SIZE) == Contents(i)[at..at + WRITE_SIZE]
    {
      hide Contents, Fetched, Chunked;
      BlockChunked(at);
      FetchedIsContents(i, at, WRITE_SIZE);
    }

    lemma BlockRead(path: string, i: nat, at: u64, r: int, before: seq<byte>, after: seq<byte>)
      requires Mounted(i) && Lookup(path) == i && at % BLOCK_LEN == 0 && at + BLOCK_LEN <= |Cipher(i)|
      requires |before| == BLOCK_LEN && ReadResult(path, WRITE_SIZE, at, r, before, after)
      ensures after == Contents(i)[at..at + BLOCK_LEN]
    {
      hide Contents, Clamped, InRange, Fetched, Put, Cipher, Laid, Lookup;
      BlockInRange(path, i, at);
      PutWhole(before, Fetched(i, at, WRITE_SIZE));
    }

    /** The read half of a turn of the loop of nand_write: the block as it is, with the new bytes merged in. */
    method MergeBlock(path: string, i: nat, buf: array<byte>, written: nat, copied: nat,
                      writeBuf: array<byte>, at: u64, skip: nat)
      requires Valid() && Lookup(path) == i && Mounted(i)
      requires at + BLOCK_LEN <= |Cipher(i)| && skip + copied <= BLOCK_LEN && at % BLOCK_LEN == 0
      requires writeBuf.Length == WRITE_SIZE && writeBuf != buf && written + copied <= buf.Length
      modifies writeBuf, Files()`locked, Files()`pos
      ensures Valid()
      ensures writeBuf[..] == Put(old(Contents(i))[at..at + BLOCK_LEN], skip, buf[written..written + copied])
    {
      hide Contents, Clamped, InRange, Fetched, Put, Cipher, Laid, Answered, ReadResult;
      Clear(writeBuf, WRITE_SIZE);
      BlockInRange(path, i, at);
      ghost var block, zeros := Contents(i)[at..at + BLOCK_LEN], writeBuf[..];
      var got := NandRead(path, writeBuf, WRITE_SIZE, at);
      BlockRead(path, i, at, got, zeros, writeBuf[..]);
      assert writeBuf[..] == block;
      CopyInto(writeBuf, skip, buf[written..written + copied]);
    }

    twostate lemma LaidKept(i: nat)
      requires old(Mounted(i)) && (forall f :: f in Files() ==> f.active == old(f.active))
      requires Others(i) == old(Others(i)) && |Backing(i).data| == |old(Backing(i).data)|
      ensures Laid() && Mounted(i)
    {
      hide TableEntry;
      forall f | f in Files() ensures |f.data| == |old(f.data)| {
        if f != Backing(i) {
          assert f.data == Others(i)[f] && old(f.data) == old(Others(i))[f];
        }
      }
    }

    /** The locked write of one block of partition `i`. */
    method StoreInPartition(i: nat, file: FileInfo, start: nat, at: nat, writeBuf: array<byte>)
      requires Mounted(i) && Idle() && file == Backing(i) && start == Start(i) && writeBuf.Length == WRITE_SIZE
      requires at + BLOCK_LEN <= |Cipher(i)|
      modifies file`locked, file`pos, file`data
      ensures Valid() && OnlyChanged(i)
      ensures Cipher(i) == Put(old(Cipher(i)), at, writeBuf[..])
    {
      hide Put, Laid, TableEntry;
      BackingCovers(i);
      ghost var raw, data := Cipher(i), file.data;
      StoreBlock(file, start + at, writeBuf);
      LaidKept(i);
      PutInPiece(data, start, |raw|, at, writeBuf[..]);
    }

    /** The write half of a turn: the merged block encrypted and stored at its place in the file. */
    method SealBlock(i: nat, file: FileInfo, start: nat, writeBuf: array<byte>,
                     at: u64, sectorOffset: u64, skip: nat, ghost piece: seq<byte>)
      requires Mounted(i) && Idle() && file == Backing(i) && start == Start(i) && writeBuf.Length == WRITE_SIZE
      requires at + BLOCK_LEN <= |Cipher(i)| && skip + |piece| <= BLOCK_LEN && BlockOffsets(at, sectorOffset, skip)
      requires writeBuf[..] == Put(Contents(i)[at..at + BLOCK_LEN], skip, piece)
      modifies writeBuf, file`locked, file`pos, file`data
      ensures Valid() && OnlyChanged(i)
      ensures Contents(i) == Put(old(Contents(i)), at + skip, piece)
    {
      hide View, Put, Laid, KeysOf, EncryptedBlock, TableEntry, BlockOffsets;
      BackingCovers(i);
      var info := userPartitions[i].partition;
      ghost var raw, x: Block := Cipher(i), writeBuf[..];
      EncryptBlock(info, writeBuf, at, sectorOffset);
      StoreInPartition(i, file, start, at, writeBuf);
      MergeIsStored(info, raw, at, sectorOffset, skip, piece, x, writeBuf[..]);
    }

    /** One turn of the loop of nand_write. */
    method WriteBlock(path: string, i: nat, file: FileInfo, start: nat, buf: array<byte>,
                      written: nat, copied: nat, writeBuf: array<byte>, at: u64, sectorOffset: u64, skip: nat)
      requires Valid() && Lookup(path) == i && Mounted(i) && file == Backing(i) && start == Start(i)
      requires at + BLOCK_LEN <= |Cipher(i)| && skip + copied <= BLOCK_LEN && BlockOffsets(at, sectorOffset, skip)
      requires writeBuf.Length == WRITE_SIZE && writeBuf != buf && written + copied <= buf.Length
      modifies writeBuf, Files()`locked, Files()`pos, file`data
      ensures Valid() && OnlyChanged(i)
      ensures Contents(i) == Put(old(Contents(i)), at + skip, buf[written..written + copied])
    {
      hide Contents, Others, Put, Laid, TableEntry, Lookup, Cipher;
      BackingCovers(i);
      MergeBlock(path, i, buf, written, copied, writeBuf, at, skip);
      SealBlock(i, file, start, writeBuf, at, sectorOffset, skip, buf[written..written + copied]);
    }

    ghost function Snap(i: nat): (was: Snapshot)
      requires Mounted(i)
      reads Files()`active, Files()`data
      ensures |was.raw| == |was.view| == |Cipher(i)|
    {
      Snapshot(Backing(i).data, Cipher(i), Contents(i), Others(i))
    }

    /** Since the state `was`, the view took in `piece` at `offset` and nothing outside partition `i` changed. */
    ghost predicate Reached(i: nat, was: Snapshot, offset: nat, piece: seq<byte>)
      reads Files()
    {
      && Valid() && Mounted(i) && Others(i) == was.others && |Cipher(i)| == |was.raw| == |was.view|
      && Start(i) + |was.raw| <= |was.data| && Backing(i).data == Put(was.data, Start(i), Cipher(i))
      && offset + |piece| <= |was.view| && Contents(i) == Put(was.view, offset, piece)
    }

    /** The same, with the ciphertext that results. */
    ghost predicate Written(i: nat, was: Snapshot, offset: nat, piece: seq<byte>)
      reads Files()
    {
      && Reached(i, was, offset, piece)
      && var info := userPartitions[i].partition;
      && Cipher(i) == Stored(info.encrypted, KeysOf(info), was.raw, offset, piece)
    }

    lemma ReachedFirst(i: nat, offset: nat)
      requires Valid() && Mounted(i) && offset <= |Cipher(i)|
      ensures Reached(i, Snap(i), offset, [])
    {
      hide Contents, Put, Laid, TableEntry, Cipher, Others;
      BackingCovers(i);
      PutSame(Backing(i).data, Start(i), |Cipher(i)|);
      PutSame(Contents(i), offset, 0);
      assert Contents(i)[offset..offset] == [];
    }

    lemma ReachedIsWritten(i: nat, was: Snapshot, offset: nat, piece: seq<byte>)
      requires Reached(i, was, offset, piece)
      requires var info := userPartitions[i].partition; was.view == View(info.encrypted, KeysOf(info), was.raw)
      ensures Written(i, was, offset, piece)
    {
      hide View, Stored, Put;
      var info := userPartitions[i].partition;
      Aes128Inverse(info.cryptKey);
      StoredByView(info.encrypted, KeysOf(info), was.raw, Cipher(i), offset, piece);
    }

    /** What a snapshot taken for partition `i` says of another one. */
    ghost function CipherIn(was: Snapshot, j: nat): seq<byte>
      requires j < PARTITION_COUNT == |userPartitions|
      reads rawInfo`active
    {
      var data := if rawInfo.active then was.data
                  else if userPartitions[j] in was.others then was.others[userPartitions[j]] else [];
      var end := Start(j) + userPartitions[j].partition.partitionSize;
      if end <= |data| then data[Start(j)..end] else []
    }

    /** Isolation: a write to one partition leaves every other one as it was, on a raw image and on separate files. */
    lemma WriteIsolated(i: nat, j: nat, was: Snapshot, offset: nat, piece: seq<byte>)
      requires Written(i, was, offset, piece) && Mounted(j) && i != j
      ensures Cipher(j) == CipherIn(was, j)
    {
      var a, b := userPartitions[i].partition, userPartitions[j].partition;
      TableFacts(a, i, b, j);
      TableFacts(b, j, a, i);
      BackingCovers(j);
      hide View, Stored, TableEntry, Laid;
      if rawInfo.active {
        DisjointPut(was.data, Start(i), Cipher(i), Start(j), |Cipher(j)|);
      }
    }

    lemma SnapTells(i: nat, j: nat)
      requires Mounted(i) && Mounted(j) && i != j
      ensures Cipher(j) == CipherIn(Snap(i), j)
    {
      hide TableEntry;
      BackingCovers(j);
    }

    /** The ciphertexts of all mounted partitions. */
    ghost function Ciphers(): map<nat, seq<byte>>
      requires Laid()
      reads Files()`active, Files()`data
    {
      map j: nat | j < PARTITION_COUNT && userPartitions[j].active :: Cipher(j)
    }

    lemma CiphersBefore(i: nat)
      requires Mounted(i)
      ensures forall j: nat :: j in Ciphers() && j != i ==> Ciphers()[j] == CipherIn(Snap(i), j)
    {
      hide TableEntry, Snap, CipherIn, Cipher;
      forall j: nat | j in Ciphers() && j != i ensures Ciphers()[j] == CipherIn(Snap(i), j) {
        SnapTells(i, j);
      }
    }

    lemma CiphersAfter(i: nat, was: Snapshot, offset: nat, piece: seq<byte>)
      requires Written(i, was, offset, piece)
      ensures Mounted(i) && forall j: nat :: j in Ciphers() && j != i ==> Ciphers()[j] == CipherIn(was, j)
    {
      hide TableEntry, Snap, CipherIn, Cipher, View, Stored, Put;
      forall j: nat | j in Ciphers() && j != i ensures Ciphers()[j] == CipherIn(was, j) {
        WriteIsolated(i, j, was, offset, piece);
      }
    }

    /** Requests in chunked form read the plaintext, on any state. */
    lemma FetchedIsContents(i: nat, offset: nat, n: nat)
      requires Mounted(i) && offset + n <= |Cipher(i)| && n > 0 && Chunked(offset, n)
      ensures Fetched(i, offset, n) == Contents(i)[offset..offset + n]
    {
      hide View, Read, Chunked;
      var info := userPartitions[i].partition;
      ReadIsView(info.encrypted, KeysOf(info), Cipher(i), offset, n);
    }

    /** The same turn after `written` bytes, told from the state at the start of the call. */
    method WriteMore(path: string, i: nat, file: FileInfo, start: nat, buf: array<byte>,
                     written: nat, copied: nat, writeBuf: array<byte>, at: u64, sectorOffset: u64, skip: nat,
                     ghost was: Snapshot, ghost offset: nat)
      requires |userPartitions| == PARTITION_COUNT && Lookup(path) == i
      requires i < PARTITION_COUNT && file == Backing(i) && start == Start(i)
      requires at + BLOCK_LEN <= |was.raw| && at + skip == offset + written
      requires skip + copied <= BLOCK_LEN && BlockOffsets(at, sectorOffset, skip)
      requires writeBuf.Length == WRITE_SIZE && writeBuf != buf
      requires written + copied <= buf.Length && offset + written + copied <= |was.view|
      requires Reached(i, was, offset, buf[..written])
      modifies writeBuf, Files()`locked, Files()`pos, file`data
      ensures Reached(i, was, offset, buf[..written + copied])
    {
      hide Contents, Put, Laid, TableEntry, Lookup, Cipher, BlockOffsets;
      ghost var before, piece := Cipher(i), buf[written..written + copied];
      WriteBlock(path, i, file, start, buf, written, copied, writeBuf, at, sectorOffset, skip);
      PutTwice(was.data, start, before, Cipher(i));
      PutMore(was.view, offset, buf[..written], piece, buf[..written + copied]);
    }

    /** The loop of nand_write. */
    method WriteBlocks(path: string, i: nat, file: FileInfo, start: nat, buf: array<byte>, n: nat, offset: nat)
      requires Valid() && Lookup(path) == i && Mounted(i) && file == Backing(i) && start == Start(i)
      requires n <= buf.Length && offset + n <= |Cipher(i)|
      modifies Files()`locked, Files()`pos, file`data
      ensures Reached(i, old(Snap(i)), offset, buf[..n])
    {
      hide Reached, Snap, Laid, Lookup, Cipher, Backing, Start, BlockOffsets, NextSectorOffset,
        BlockStart, InSector, InBlock;
      var written: nat := 0;
      var writeBuf := new byte[WRITE_SIZE];
      var at: nat := BlockStart(offset);
      var sectorOffset: nat := InSector(offset);
      var skip: nat := InBlock(offset);
      WriteStarts(offset);
      BackingCovers(i);
      ghost var was := Snap(i);
      ReachedFirst(i, offset);
      while written < n
        invariant written <= n && |userPartitions| == PARTITION_COUNT && Lookup(path) == i
        invariant Reached(i, was, offset, buf[..written])
        invariant written < n ==> at + skip == offset + written && BlockOffsets(at, sectorOffset, skip)
      {
        WriteStep(at, sectorOffset, skip, |was.raw|);
        var copied := if n - written > WRITE_SIZE - skip then WRITE_SIZE - skip else n - written;
        WriteMore(path, i, file, start, buf, written, copied, writeBuf, at, sectorOffset, skip, was, offset);
        at := at + WRITE_SIZE;
        sectorOffset := NextSectorOffset(sectorOffset, copied);
        written := written + copied;
        skip := 0;
      }
    }

    /** nand_write once the size is clamped. */
    method WriteClamped(path: string, i: nat, file: FileInfo, buf: array<byte>, n: nat, offset: nat)
      requires Valid() && Lookup(path) == i && Mounted(i) && file == Backing(i)
      requires 0 < n <= buf.Length && offset + n <= |Cipher(i)|
      modifies Files()`locked, Files()`pos, file`data
      ensures Valid() && Written(i, old(Snap(i)), offset, buf[..n])
      ensures Mounted(i) && Ciphers() == old(Ciphers())[i := Cipher(i)]
    {
      hide View, Put, Laid, TableEntry, Lookup, Cipher, CipherIn;
      BackingCovers(i);
      CiphersBefore(i);
      var info := userPartitions[i].partition;
      var start := 0;
      if file.partition.id == ID_NAND {
        start := RAW_USERPARTITION_BASE + info.partitionOffset;
      }
      WriteBlocks(path, i, file, start, buf, n, offset);
      ReachedIsWritten(i, old(Snap(i)), offset, buf[..n]);
      CiphersAfter(i, old(Snap(i)), offset, buf[..n]);
    }

    /** The same, as what the request was for, told from the state at the start of the call. */
    method WriteRange(path: string, i: nat, file: FileInfo, buf: array<byte>, ghost size: u64, n: nat, offset: u64,
                      ghost was: Snapshot, ghost ciphers: map<nat, seq<byte>>, ghost image: seq<byte>)
      requires Valid() && Lookup(path) == i && Mounted(i) && file == Backing(i)
      requires 0 < n <= buf.Length && offset + n <= |Cipher(i)| && n == Spec.Reached(|Cipher(i)|, size, offset)
      requires was == Snap(i) && ciphers == Ciphers() && image == rawInfo.data
      modifies Files()`locked, Files()`pos, file`data
      ensures Valid() && Written(i, was, offset, buf[..n])
      ensures Mounted(i) && Ciphers() == ciphers[i := Cipher(i)]
      ensures Taken(path, size, offset, n, buf[..], ciphers, image)
    {
      hide View, Put, Laid, TableEntry, Lookup, Cipher, Ciphers, Contents, KeysOf, Snap, Written, Taken, Spec.Reached;
      SnapOf(i);
      WriteClamped(path, i, file, buf, n, offset);
      WriteTaken(path, i, was, size, offset, n, buf[..], ciphers, image);
    }

    method NandWrite(path: string, buf: array<byte>, size: u64, offset: u64) returns (r: int)
      requires Valid()
      requires var i := Lookup(path); i >= 0 ==> InRange(i, size, offset) && Clamped(i, size, offset) <= buf.Length
      modifies Files()`locked, Files()`pos, Files()`data
      ensures Valid()
      ensures var i := old(Lookup(path));
              if i < 0 then r == -ENOENT && Untouched()
              else if old(Clamped(i, size, offset)) == 0 then r == -EINVAL && Untouched()
              else
                && r == old(Clamped(i, size, offset)) && Written(i, old(Snap(i)), offset, buf[..r])
                && Ciphers() == old(Ciphers())[i := Cipher(i)]
      ensures Taken(path, size, offset, r, buf[..], old(Ciphers()), old(rawInfo.data))
    {
      hide View, Put, Clamp, TableEntry, Laid, Named, ByName, Lookup, Cipher, Ciphers, Contents, KeysOf, Snap, Written,
        Taken, InRange, Backing, Start;
      NothingTaken(path, size, offset, buf[..]);
      var i, info := GetPartitionInfo(path);
      if i < 0 {
        return -ENOENT;
      }
      LookupMounted(path);
      var fileIndex, file := GetPartitionFileInfo(path);
      if fileIndex < 0 {
        return -ENOENT;
      }
      RangeInside(i, size, offset);
      var n := Clamp(size, offset, info.partitionSize);
      if n == 0 {
        return -EINVAL;
      }
      WriteRange(path, i, file, buf, size, n, offset, old(Snap(i)), old(Ciphers()), old(rawInfo.data));
      r := n;
    }

    /** The write of the promised bytes, told from the state before. */
    lemma WrittenAsPromised(i: nat, was: Snapshot, size: u64, offset: u64, n: nat, buf: seq<byte>)
      requires 0 < n <= |buf| && Written(i, was, offset, buf[..n]) && n == Spec.Reached(|was.raw|, size, offset)
      requires var info := userPartitions[i].partition; was.view == View(info.encrypted, KeysOf(info), was.raw)
      ensures var info := userPartitions[i].partition;
              Spec.WrittenAs(info.tweakKey, info.cryptKey, was.raw, Cipher(i), size, offset, n, buf)
    {
      hide Spec.PlainByte, TableEntry, KeysOf, Plain, Stored, Cipher, Put, Spec.Reached;
      var info := userPartitions[i].partition;
      RangeInTable(info, i);
      forall q: nat | q < |was.raw|
        ensures 16 * (q / 16 + 1) <= |was.raw|
        ensures Spec.PlainByte(info.tweakKey, info.cryptKey, Cipher(i), q)
             == if offset <= q < offset + n then buf[..n][q - offset]
                else Spec.PlainByte(info.tweakKey, info.cryptKey, was.raw, q)
      {
        PlainByKeys(info, Cipher(i), q);
        PlainByKeys(info, was.raw, q);
      }
    }

    /** Bytes of the raw image outside the range of this name are as in `image`. */
    ghost predicate OnlyInRange(name: string, image: seq<byte>)
      reads rawInfo`active, rawInfo`data
    {
      rawInfo.active ==>
        && |rawInfo.data| == |image|
        && forall q: nat :: q < |image| && !(Spec.ImageStart(name) <= q < Spec.ImageEnd(name)) ==>
          rawInfo.data[q] == image[q]
    }

    /**
     What a write did since the partitions held `ciphers` and the raw image `image`, told by name: -2 and
     nothing if no mounted partition has the name, otherwise what is promised of the one that has it.
     */
    ghost predicate Taken(path: string, size: u64, offset: u64, r: int, buf: seq<byte>,
                          ciphers: map<nat, seq<byte>>, image: seq<byte>)
      reads Files()`active, Files()`data
    {
      && Laid() && (r == -2 <==> Unnamed(path)) && (r == -2 ==> Ciphers() == ciphers && rawInfo.data == image)
      && forall i: nat :: i < 5 && userPartitions[i].active && Spec.Names(path, userPartitions[i].partition.name) ==>
        var info := userPartitions[i].partition;
        && i in ciphers && OnlyInRange(info.name, image)
        && Spec.WrittenAs(info.tweakKey, info.cryptKey, ciphers[i], Cipher(i), size, offset, r, buf)
    }

    lemma NothingTaken(path: string, size: u64, offset: u64, buf: seq<byte>)
      requires Laid()
      requires var i := Lookup(path); i >= 0 ==> InRange(i, size, offset)
      ensures var i := Lookup(path);
              if i < 0 then Taken(path, size, offset, -2, buf, Ciphers(), rawInfo.data)
              else Clamped(i, size, offset) == 0 ==> Taken(path, size, offset, -22, buf, Ciphers(), rawInfo.data)
    {
      hide TableEntry, Clamp, Spec.WrittenAs, Spec.Names, Named, InRange, Clamped, Cipher;
      LookupByName(path);
      var i := Lookup(path);
      if i >= 0 && Clamped(i, size, offset) == 0 {
        LookupMounted(path);
        NothingReached(i, size, offset, buf);
      }
    }

    /** What a snapshot holds. */
    lemma SnapOf(i: nat)
      requires Mounted(i)
      ensures i in Ciphers() && Snap(i).raw == Ciphers()[i] && (rawInfo.active ==> Snap(i).data == rawInfo.data)
      ensures var info := userPartitions[i].partition;
              && InTable(info, i) && |Snap(i).raw| % BLOCK_LEN == 0
              && Snap(i).view == View(info.encrypted, KeysOf(info), Snap(i).raw)
    {
      hide TableEntry, View;
    }

    lemma WriteTaken(path: string, i: nat, was: Snapshot, size: u64, offset: u64, n: nat, buf: seq<byte>,
                     ciphers: map<nat, seq<byte>>, image: seq<byte>)
      requires Laid() && Lookup(path) == i && i in ciphers && was.raw == ciphers[i]
      requires 0 < n <= |buf| && Written(i, was, offset, buf[..n]) && n == Spec.Reached(|was.raw|, size, offset)
      requires rawInfo.active ==> was.data == image
      requires var info := userPartitions[i].partition; was.view == View(info.encrypted, KeysOf(info), was.raw)
      ensures Taken(path, size, offset, n, buf, ciphers, image)
    {
      hide TableEntry, Spec.WrittenAs, Spec.Names, Named, Contents, Cipher, Stored, Put, Written, View, Spec.Reached;
      LookupByName(path);
      WrittenAsPromised(i, was, size, offset, n, buf);
      ImageKept(i, was, offset, buf[..n]);
    }

    lemma ImageKept(i: nat, was: Snapshot, offset: nat, piece: seq<byte>)
      requires Written(i, was, offset, piece)
      ensures rawInfo.active ==> OnlyInRange(userPartitions[i].partition.name, was.data)
    {
      hide TableEntry, View, Stored, Contents;
      RangeInTable(userPartitions[i].partition, i);
    }

    twostate predicate Untouched()
      reads Files()
    {
      forall f :: f in Files() ==> f.data == old(f.data)
    }
  }

  lemma WriteStarts(offset: nat)
    ensures BlockOffsets(BlockStart(offset), InSector(offset), InBlock(offset))
    ensures BlockStart(offset) + InBlock(offset) == offset
  {
    BlockSplit(offset);
  }

  lemma PutMore(s: seq<byte>, at: nat, a: seq<byte>, b: seq<byte>, ab: seq<byte>)
    requires at + |ab| <= |s| && ab == a + b
    ensures Put(Put(s, at, a), at + |a|, b) == Put(s, at, ab)
  { }

  /** Whole blocks do not straddle sectors, and stay inside a partition of whole blocks. */
  lemma WriteStep(at: nat, sectorOffset: nat, skip: nat, length: nat)
    requires BlockOffsets(at, sectorOffset, skip) && length % BLOCK_LEN == 0 && at + skip < length
    ensures at + BLOCK_LEN <= length && skip < BLOCK_LEN && sectorOffset < SECTOR_SIZE
    ensures BlockOffsets(at + BLOCK_LEN, NextSectorOffset(sectorOffset, BLOCK_LEN - skip), 0)
  {
    hide NextSectorOffset;
    BlockInside(at, skip, length);
    Division.AddBlocks(at, BLOCK_LEN);
    NextOffset(at, sectorOffset, skip, BLOCK_LEN);
  }

  function EncryptedBlock(info: PartitionInfo, x: Block, at: u64, sectorOffset: u64): Block
    requires |info.tweakKey| == KEY_SIZE && |info.cryptKey| == KEY_SIZE
  {
    if info.encrypted
    then Process(true, KeysOf(info).crypt, KeysOf(info).tweak, 0, at / SECTOR_SIZE, SECTOR_SIZE, sectorOffset, x)
    else x
  }

  lemma MergeIsStored(info: PartitionInfo, raw: seq<byte>, at: nat, sectorOffset: u64, skip: nat,
                      piece: seq<byte>, x: Block, y: Block)
    requires |info.tweakKey| == KEY_SIZE && |info.cryptKey| == KEY_SIZE
    requires |raw| % BLOCK_LEN == 0 && at + BLOCK_LEN <= |raw| < OFFSET_LIMIT
    requires skip + |piece| <= BLOCK_LEN && BlockOffsets(at, sectorOffset, skip)
    requires x == Put(View(info.encrypted, KeysOf(info), raw)[at..at + BLOCK_LEN], skip, piece)
    requires y == EncryptedBlock(info, x, at, sectorOffset)
    ensures View(info.encrypted, KeysOf(info), Put(raw, at, y))
         == Put(View(info.encrypted, KeysOf(info), raw), at + skip, piece)
  {
    hide View, Put, Inverse, Aes128, BlockOffsets;
    Aes128Inverse(info.cryptKey);
    MergedBlock(info.encrypted, KeysOf(info), raw, at, sectorOffset, skip, piece, x, y);
  }

  /** The encryption of the merged block. */
  method EncryptBlock(info: PartitionInfo, writeBuf: array<byte>, at: u64, sectorOffset: u64)
    requires |info.tweakKey| == KEY_SIZE && |info.cryptKey| == KEY_SIZE
    requires writeBuf.Length == WRITE_SIZE && at < OFFSET_LIMIT
    modifies writeBuf
    ensures writeBuf[..] == EncryptedBlock(info, old(writeBuf[..]), at, sectorOffset)
  {
    hide Aes128, Process, Processed, Put;
    var sector := at / SECTOR_SIZE;
    var tweakHi: u64 := sector / 0x8000_0000_0000_0000;
    var tweakLo: u64 := sector;
    if info.encrypted {
      ghost var was := writeBuf[..];
      assert writeBuf[0..WRITE_SIZE] == was && tweakHi == 0;
      ghost var k := KeysOf(info);
      OneSectorCall(true, k.crypt, k.tweak, 0, sector, SECTOR_SIZE, sectorOffset, WRITE_SIZE, was, 0);
      XtsnProcess(true, writeBuf, 0, WRITE_SIZE, info.cryptKey, info.tweakKey, tweakHi, tweakLo, SECTOR_SIZE,
                  sectorOffset);
      PutWhole(was, EncryptedBlock(info, was, at, sectorOffset));
    }
  }

  /** The locked write of one block. */
  method StoreBlock(file: FileInfo, at: nat, writeBuf: array<byte>)
    requires !file.locked && writeBuf.Length == WRITE_SIZE && at + WRITE_SIZE <= |file.data|
    modifies file`locked, file`pos, file`data
    ensures !file.locked
    ensures file.data == Put(old(file.data), at, writeBuf[..])
  {
    hide Put;
    file.Lock();
    file.Seek(at);
    var put := file.Write(writeBuf, WRITE_SIZE);
    file.Unlock();
    assert writeBuf[..WRITE_SIZE] == writeBuf[..];
  }

  lemma BlockChunked(at: nat)
    requires at % BLOCK_LEN == 0
    ensures Chunked(at, WRITE_SIZE)
  {
    BlockInside(at, 0, at + BLOCK_LEN);
    Division.AddBlocks(at, BLOCK_LEN);
    Division.WithinSector(at, BLOCK_LEN - 1);
  }

  /** One turn of the loop of nand_read: fetch a chunk and copy out what was asked of it. */
  method CopyChunk(file: FileInfo, start: nat, info: PartitionInfo, readBuf: array<byte>, clear: nat, n: nat,
                   at: nat, sectorOffset: nat, skip: nat, copied: nat, buf: array<byte>, read: nat)
    requires |info.tweakKey| == KEY_SIZE && |info.cryptKey| == KEY_SIZE
    requires 0 < n <= clear <= READ_SIZE == readBuf.Length && readBuf != buf
    requires !file.locked && start + info.partitionSize <= |file.data|
    requires at + n <= info.partitionSize < OFFSET_LIMIT && sectorOffset < SECTOR_SIZE
    requires skip + copied <= n || (clear == READ_SIZE && skip + copied <= READ_SIZE)
    requires read + copied <= buf.Length
    modifies file`locked, file`pos, readBuf, buf
    ensures !file.locked
    ensures buf[..] == Put(old(buf[..]), read,
      ChunkBuffer(info.encrypted, KeysOf(info), file.data[start..start + info.partitionSize], at, sectorOffset, n)
        [skip..skip + copied])
  {
    hide Aes128, Decrypted, Put;
    ghost var raw := file.data[start..start + info.partitionSize];
    FetchChunk(file, start, info, readBuf, clear, n, at, sectorOffset);
    SliceOfSlice(file.data, start, info.partitionSize, at, at + n);
    assert readBuf[skip..skip + copied]
        == ChunkBuffer(info.encrypted, KeysOf(info), raw, at, sectorOffset, n)[skip..skip + copied];
    CopyInto(buf, read, readBuf[skip..skip + copied]);
  }

  lemma PutNext(s: seq<byte>, a: seq<byte>, b: seq<byte>)
    requires |a| + |b| <= |s|
    ensures Put(Put(s, 0, a), |a|, b) == Put(s, 0, a + b)
  { }

  /** The loop of nand_read, on the file found. */
  method ReadChunks(file: FileInfo, start: nat, info: PartitionInfo, buf: array<byte>, size: nat, offset: nat)
    requires |info.tweakKey| == KEY_SIZE && |info.cryptKey| == KEY_SIZE
    requires !file.locked && start + info.partitionSize <= |file.data|
    requires 0 < size <= buf.Length && offset + size <= info.partitionSize < OFFSET_LIMIT
    modifies file`locked, file`pos, buf
    ensures !file.locked
    ensures buf[..] == Put(old(buf[..]), 0,
      Read(info.encrypted, KeysOf(info), file.data[start..start + info.partitionSize], offset, size))
  {
    hide KeysOf, ChunkBuffer, Put, NextSectorOffset, Read, ReadFrom, CopySize, LoopState,
      BlockStart, InSector, InBlock;
    ghost var raw, k := file.data[start..start + info.partitionSize], KeysOf(info);
    ghost var result, was := Read(info.encrypted, k, raw, offset, size), buf[..];
    ReadStarts(info.encrypted, k, raw, offset, size);
    ghost var done: seq<byte> := [];
    var blockSize := READ_SIZE;
    var readBuf := new byte[READ_SIZE];
    var read: nat := 0;
    var at: nat := BlockStart(offset);
    var sectorOffset: nat := InSector(offset);
    var skip: nat := InBlock(offset);
    PutSame(buf[..], 0, 0);
    while read < size
      invariant 0 < blockSize && read <= size && |done| == read && !file.locked
      invariant LoopState(raw, at, sectorOffset, skip, size - read, blockSize)
      invariant done + ReadFrom(info.encrypted, k, raw, at, sectorOffset, skip, size - read, blockSize)
             == result
      invariant buf[..] == Put(was, 0, done)
      decreases size - read, skip
    {
      var clear := blockSize;
      if blockSize > size - read {
        blockSize := size - read;
      }
      var copied := CopySize(size - read, blockSize, skip);
      LoopStep(raw, at, sectorOffset, skip, size - read, clear);
      ReadFromStep(info.encrypted, k, raw, at, sectorOffset, skip, size - read, clear, done);
      CopyChunk(file, start, info, readBuf, clear, blockSize, at, sectorOffset, skip, copied, buf, read);
      ghost var piece := ChunkBuffer(info.encrypted, k, raw, at, sectorOffset, blockSize)[skip..skip + copied];
      PutNext(was, done, piece);
      done := done + piece;
      read := read + copied;
      at := at + blockSize;
      sectorOffset := NextSectorOffset(sectorOffset, copied);
      skip := 0;
    }
    assert done + [] == done;
  }
}
