/**
 Whole runs: any finite sequence of reads and writes on a raw image or on five partition files, against the
 same calls on one plain byte array per partition.
 */
module Runs {
  import opened Bytes
  import opened BlockCipher
  import opened Tweak
  import opened PlainView
  import opened ReadLoop
  import opened Driver

  /** What is mounted, and with which keys. */
  datatype Setup = Setup(mounted: seq<bool>, tweakKeys: seq<seq<byte>>, cryptKeys: seq<seq<byte>>)

  ghost predicate Sound(u: Setup) {
    && |u.mounted| == |u.tweakKeys| == |u.cryptKeys| == PARTITION_COUNT
    && forall i :: 0 <= i < PARTITION_COUNT ==> |u.tweakKeys[i]| == |u.cryptKeys[i]| == KEY_SIZE
  }

  function Entry(u: Setup, i: nat): (info: PartitionInfo)
    requires Sound(u) && i < PARTITION_COUNT
    ensures |info.tweakKey| == |info.cryptKey| == KEY_SIZE && InTable(info, i)
  {
    TableEntry(i, u.tweakKeys[i], u.cryptKeys[i])
  }

  function Size(u: Setup, i: nat): (n: nat)
    requires Sound(u) && i < PARTITION_COUNT
    ensures 0 < n < OFFSET_LIMIT && n % BLOCK_LEN == 0
  {
    TableFacts(Entry(u, i), i, Entry(u, i), i);
    Entry(u, i).partitionSize
  }

  datatype Disk = RawImage(image: seq<byte>) | Separate(files: seq<seq<byte>>)

  ghost predicate Fits(u: Setup, disk: Disk)
    requires Sound(u)
  {
    match disk
    case RawImage(image) => RAW_END <= |image| < OFFSET_LIMIT
    case Separate(files) =>
      && |files| == PARTITION_COUNT
      && forall i :: 0 <= i < PARTITION_COUNT && u.mounted[i] ==> Size(u, i) <= |files[i]| < OFFSET_LIMIT
  }

  ghost predicate Mounted(u: Setup, disk: Disk, i: nat) {
    Sound(u) && Fits(u, disk) && i < PARTITION_COUNT && u.mounted[i]
  }

  /** Where partition `i` starts in the raw image. */
  function Base(u: Setup, i: nat): (start: nat)
    requires Sound(u) && i < PARTITION_COUNT
    ensures start + Size(u, i) <= RAW_END
  {
    TableFacts(Entry(u, i), i, Entry(u, i), i);
    RAW_USERPARTITION_BASE + Entry(u, i).partitionOffset
  }

  /** The ciphertext of partition `i`. */
  function Region(u: Setup, disk: Disk, i: nat): (raw: seq<byte>)
    requires Mounted(u, disk, i)
    ensures |raw| == Size(u, i)
  {
    match disk
    case RawImage(image) => image[Base(u, i)..Base(u, i) + Size(u, i)]
    case Separate(files) => files[i][..Size(u, i)]
  }

  function WithRegion(u: Setup, disk: Disk, i: nat, raw: seq<byte>): Disk
    requires Mounted(u, disk, i) && |raw| == Size(u, i)
  {
    match disk
    case RawImage(image) => RawImage(Put(image, Base(u, i), raw))
    case Separate(files) => Separate(files[i := Put(files[i], 0, raw)])
  }

  /** One partition's bytes replaced: that partition has them, and no other one lost any. */
  lemma RegionOfWith(u: Setup, disk: Disk, i: nat, raw: seq<byte>, j: nat)
    requires Mounted(u, disk, i) && Mounted(u, disk, j) && |raw| == Size(u, i)
    ensures Mounted(u, WithRegion(u, disk, i, raw), j)
    ensures Region(u, WithRegion(u, disk, i, raw), j) == if i == j then raw else Region(u, disk, j)
  {
    TableFacts(Entry(u, i), i, Entry(u, j), j);
    TableFacts(Entry(u, j), j, Entry(u, i), i);
    hide TableEntry;
    if disk.RawImage? && i != j {
      DisjointPut(disk.image, Base(u, i), raw, Base(u, j), Size(u, j));
    }
  }

  ghost function ViewOf(u: Setup, disk: Disk, i: nat): (p: seq<byte>)
    requires Mounted(u, disk, i)
    ensures |p| == Size(u, i)
  {
    View(Entry(u, i).encrypted, KeysOf(Entry(u, i)), Region(u, disk, i))
  }

  // ---- requests ----

  datatype Op =
    | ReadOp(path: string, size: u64, offset: u64)
    | WriteOp(path: string, data: seq<byte>, offset: u64)

  datatype Reply = Failed(error: int) | Data(bytes: seq<byte>) | Count(written: nat)

  ghost predicate Named(u: Setup, path: string, i: nat)
    requires Sound(u)
  {
    i < PARTITION_COUNT && u.mounted[i] && Entry(u, i).name == Strip(path)
  }

  ghost function Find(u: Setup, path: string): (r: int)
    requires Sound(u)
    ensures r == -2 <==> forall i: nat :: !Named(u, path, i)
    ensures r == -2 || (0 <= r && Named(u, path, r))
  {
    if i: nat :| Named(u, path, i) then i else -2
  }

  function Length(op: Op): nat {
    if op.ReadOp? then op.size else |op.data|
  }

  /** The bytes a request reaches in partition `i`. */
  function Reach(u: Setup, op: Op, i: nat): nat
    requires Sound(u) && i < PARTITION_COUNT && Length(op) < TWO64
  {
    Clamp(Length(op), op.offset, Size(u, i))
  }

  /** A request the driver is made for; a read is in chunked form as well. */
  ghost predicate Admissible(u: Setup, op: Op)
    requires Sound(u)
  {
    && Length(op) < TWO64
    && var i := Find(u, op.path);
    i >= 0 ==>
      && op.offset < OFFSET_LIMIT && Reach(u, op, i) <= INT_MAX
      && (op.ReadOp? && Reach(u, op, i) > 0 ==> Chunked(op.offset, Reach(u, op, i)))
  }

  lemma ReachFits(u: Setup, op: Op)
    requires Sound(u) && Admissible(u, op) && Find(u, op.path) >= 0
    ensures var i := Find(u, op.path); op.offset + Reach(u, op, i) <= Size(u, i) && Reach(u, op, i) <= Length(op)
  {
    ClampFitsIff(Length(op), op.offset, Size(u, Find(u, op.path)));
  }

  lemma WithRegionFits(u: Setup, disk: Disk, i: nat, raw: seq<byte>)
    requires Mounted(u, disk, i) && |raw| == Size(u, i)
    ensures Fits(u, WithRegion(u, disk, i, raw))
  { }

  /** The disk once `piece` was written at `offset` of partition `i`. */
  function AfterWrite(u: Setup, disk: Disk, i: nat, offset: nat, piece: seq<byte>): (after: Disk)
    requires Mounted(u, disk, i) && offset + |piece| <= Size(u, i)
    ensures Fits(u, after)
  {
    var info := Entry(u, i);
    var next := Stored(info.encrypted, KeysOf(info), Region(u, disk, i), offset, piece);
    WithRegionFits(u, disk, i, next);
    WithRegion(u, disk, i, next)
  }

  /** One call, as nand_read and nand_write answer it. */
  ghost function Step(u: Setup, disk: Disk, op: Op): (r: (Disk, Reply))
    requires Sound(u) && Fits(u, disk) && Admissible(u, op)
    ensures Fits(u, r.0)
  {
    var i := Find(u, op.path);
    if i < 0 then (disk, Failed(-ENOENT))
    else
      var n := Reach(u, op, i);
      if n == 0 then (disk, Failed(-EINVAL))
      else
        ReachFits(u, op);
        match op
        case ReadOp(_, _, offset) =>
          (disk, Data(Read(Entry(u, i).encrypted, KeysOf(Entry(u, i)), Region(u, disk, i), offset, n)))
        case WriteOp(_, data, offset) => (AfterWrite(u, disk, i, offset, data[..n]), Count(n))
  }

  // ---- the same call on plain byte arrays ----

  ghost predicate Shaped(u: Setup, plain: seq<seq<byte>>)
    requires Sound(u)
  {
    |plain| == PARTITION_COUNT && forall i :: 0 <= i < PARTITION_COUNT && u.mounted[i] ==> |plain[i]| == Size(u, i)
  }

  ghost function PlainStep(u: Setup, plain: seq<seq<byte>>, op: Op): (r: (seq<seq<byte>>, Reply))
    requires Sound(u) && Shaped(u, plain) && Admissible(u, op)
    ensures Shaped(u, r.0)
  {
    var i := Find(u, op.path);
    if i < 0 then (plain, Failed(-ENOENT))
    else
      var n := Reach(u, op, i);
      if n == 0 then (plain, Failed(-EINVAL))
      else
        ReachFits(u, op);
        match op
        case ReadOp(_, _, offset) => (plain, Data(plain[i][offset..offset + n]))
        case WriteOp(_, data, offset) => (plain[i := Put(plain[i], offset, data[..n])], Count(n))
  }

  /** The plaintexts of the mounted partitions. */
  ghost function Views(u: Setup, disk: Disk): (plain: seq<seq<byte>>)
    requires Sound(u) && Fits(u, disk)
    ensures Shaped(u, plain)
  {
    seq(PARTITION_COUNT, i requires 0 <= i < PARTITION_COUNT => if u.mounted[i] then ViewOf(u, disk, i) else [])
  }

  /** One call on ciphertext and on plain arrays: same answer, and the arrays are again the views. */
  lemma StepSimulates(u: Setup, disk: Disk, op: Op)
    requires Sound(u) && Fits(u, disk) && Admissible(u, op)
    ensures Step(u, disk, op).1 == PlainStep(u, Views(u, disk), op).1
    ensures Views(u, Step(u, disk, op).0) == PlainStep(u, Views(u, disk), op).0
  {
    hide View, Read, Put, Chunked, Reach, Views, AfterWrite, Entry, Region, Fits;
    var i := Find(u, op.path);
    if i >= 0 && Reach(u, op, i) > 0 {
      ReachFits(u, op);
      var n := Reach(u, op, i);
      if op.ReadOp? {
        ReadSimulates(u, disk, i, op.offset, n);
      } else {
        WriteSimulates(u, disk, i, op.offset, op.data[..n]);
      }
    }
  }

  lemma ReadSimulates(u: Setup, disk: Disk, i: nat, offset: nat, n: nat)
    requires Mounted(u, disk, i) && offset + n <= Size(u, i) && n > 0 && Chunked(offset, n)
    ensures Read(Entry(u, i).encrypted, KeysOf(Entry(u, i)), Region(u, disk, i), offset, n)
         == Views(u, disk)[i][offset..offset + n]
  {
    hide View, Read, TableEntry, Chunked, Region, Fits;
    ReadIsView(Entry(u, i).encrypted, KeysOf(Entry(u, i)), Region(u, disk, i), offset, n);
  }

  lemma WriteSimulates(u: Setup, disk: Disk, i: nat, offset: nat, piece: seq<byte>)
    requires Mounted(u, disk, i) && offset + |piece| <= Size(u, i)
    ensures Views(u, AfterWrite(u, disk, i, offset, piece))
         == Views(u, disk)[i := Put(Views(u, disk)[i], offset, piece)]
  {
    hide View, Stored, Put, TableEntry, Region, WithRegion, Fits;
    var info, raw := Entry(u, i), Region(u, disk, i);
    var next := Stored(info.encrypted, KeysOf(info), raw, offset, piece);
    var after := WithRegion(u, disk, i, next);
    WithRegionFits(u, disk, i, next);
    Aes128Inverse(info.cryptKey);
    ViewOfStored(info.encrypted, KeysOf(info), raw, offset, piece);
    forall j: nat | j < PARTITION_COUNT
      ensures Views(u, after)[j] == if j == i then Put(Views(u, disk)[i], offset, piece) else Views(u, disk)[j]
    {
      if u.mounted[j] {
        RegionOfWith(u, disk, i, next, j);
      }
    }
  }

  // ---- runs ----

  ghost function Run(u: Setup, disk: Disk, ops: seq<Op>): (r: (Disk, seq<Reply>))
    requires Sound(u) && Fits(u, disk) && forall op :: op in ops ==> Admissible(u, op)
    ensures |r.1| == |ops| && Fits(u, r.0)
    decreases |ops|
  {
    if ops == [] then (disk, [])
    else
      var (next, reply) := Step(u, disk, ops[0]);
      var rest := Run(u, next, ops[1..]);
      (rest.0, [reply] + rest.1)
  }

  ghost function PlainRun(u: Setup, plain: seq<seq<byte>>, ops: seq<Op>): (r: (seq<seq<byte>>, seq<Reply>))
    requires Sound(u) && Shaped(u, plain) && forall op :: op in ops ==> Admissible(u, op)
    ensures |r.1| == |ops|
    decreases |ops|
  {
    if ops == [] then (plain, [])
    else
      var (next, reply) := PlainStep(u, plain, ops[0]);
      var rest := PlainRun(u, next, ops[1..]);
      (rest.0, [reply] + rest.1)
  }

  /** Every run answers as plain byte arrays would, from any initial ciphertext, on either kind of disk. */
  lemma {:induction false} RunSimulates(u: Setup, disk: Disk, ops: seq<Op>)
    requires Sound(u) && Fits(u, disk) && forall op :: op in ops ==> Admissible(u, op)
    ensures Run(u, disk, ops).1 == PlainRun(u, Views(u, disk), ops).1
    ensures Views(u, Run(u, disk, ops).0) == PlainRun(u, Views(u, disk), ops).0
    decreases |ops|
  {
    hide Step, PlainStep, Views, Fits, Admissible;
    if ops != [] {
      StepSimulates(u, disk, ops[0]);
      RunSimulates(u, Step(u, disk, ops[0]).0, ops[1..]);
    }
  }

  /** So a raw image and separate files that hold the same plaintexts cannot be told apart by any run. */
  lemma BackingsAgree(u: Setup, raw: Disk, files: Disk, ops: seq<Op>)
    requires Sound(u) && Fits(u, raw) && Fits(u, files) && raw.RawImage? && files.Separate?
    requires Views(u, raw) == Views(u, files) && forall op :: op in ops ==> Admissible(u, op)
    ensures Run(u, raw, ops).1 == Run(u, files, ops).1
  {
    hide Views, Fits, Admissible;
    RunSimulates(u, raw, ops);
    RunSimulates(u, files, ops);
  }

  /** The byte `at` of the image is in no partition the call writes. */
  ghost predicate Spares(u: Setup, op: Op, at: nat)
    requires Sound(u)
  {
    var i := Find(u, op.path);
    op.WriteOp? && i >= 0 ==> at < Base(u, i) || at >= Base(u, i) + Size(u, i)
  }

  lemma StepKeepsByte(u: Setup, image: seq<byte>, op: Op, at: nat)
    requires Sound(u) && Fits(u, RawImage(image)) && Admissible(u, op) && at < |image| && Spares(u, op, at)
    ensures var next := Step(u, RawImage(image), op).0;
            next.RawImage? && |next.image| == |image| && next.image[at] == image[at]
  {
    hide TableEntry, Stored, Read, View, Region, Chunked, Clamp, Base;
    if Find(u, op.path) >= 0 && Reach(u, op, Find(u, op.path)) > 0 {
      ReachFits(u, op);
    }
  }

  /** Partition isolation over whole runs: bytes of a raw image outside the partitions written never change. */
  lemma {:induction false} RunKeepsByte(u: Setup, image: seq<byte>, ops: seq<Op>, at: nat)
    requires Sound(u) && Fits(u, RawImage(image)) && at < |image|
    requires forall op :: op in ops ==> Admissible(u, op) && Spares(u, op, at)
    ensures var last := Run(u, RawImage(image), ops).0;
            last.RawImage? && |last.image| == |image| && last.image[at] == image[at]
    decreases |ops|
  {
    hide Admissible, Step, Fits, Spares;
    if ops != [] {
      StepKeepsByte(u, image, ops[0], at);
      RunKeepsByte(u, Step(u, RawImage(image), ops[0]).0.image, ops[1..], at);
    }
  }

  lemma StepKeepsPartition(u: Setup, disk: Disk, op: Op, j: nat)
    requires Mounted(u, disk, j) && Admissible(u, op) && (op.WriteOp? ==> Find(u, op.path) != j)
    ensures Mounted(u, Step(u, disk, op).0, j) && Region(u, Step(u, disk, op).0, j) == Region(u, disk, j)
  {
    hide TableEntry, Stored, Read, View, Region, WithRegion, Chunked, Clamp, Base, Fits;
    var i := Find(u, op.path);
    if i >= 0 && Reach(u, op, i) > 0 && op.WriteOp? {
      ReachFits(u, op);
      var info := Entry(u, i);
      var next := Stored(info.encrypted, KeysOf(info), Region(u, disk, i), op.offset, op.data[..Reach(u, op, i)]);
      RegionOfWith(u, disk, i, next, j);
    }
  }

  /** No run that writes other partitions only alters a ciphertext byte of this one, on either kind of disk. */
  lemma {:induction false} RunKeepsPartition(u: Setup, disk: Disk, ops: seq<Op>, j: nat)
    requires Mounted(u, disk, j)
    requires forall op :: op in ops ==> Admissible(u, op) && (op.WriteOp? ==> Find(u, op.path) != j)
    ensures Mounted(u, Run(u, disk, ops).0, j) && Region(u, Run(u, disk, ops).0, j) == Region(u, disk, j)
    decreases |ops|
  {
    hide Admissible, Step, Fits, Region;
    if ops != [] {
      StepKeepsPartition(u, disk, ops[0], j);
      RunKeepsPartition(u, Step(u, disk, ops[0]).0, ops[1..], j);
    }
  }
}
