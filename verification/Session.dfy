/** Requests served one after another on the driver, against the runs of Runs. */
module Session {
  import opened Bytes
  import opened PlainView
  import opened ReadLoop
  import opened Tweak
  import D = Driver
  import opened Runs

  ghost function SetupOf(d: D.Driver): (u: Setup)
    requires d.Tabled()
    reads d.Files()`active
    ensures Sound(u)
  {
    var p := d.userPartitions;
    Setup([p[0].active, p[1].active, p[2].active, p[3].active, p[4].active],
          [p[0].partition.tweakKey, p[1].partition.tweakKey, p[2].partition.tweakKey,
           p[3].partition.tweakKey, p[4].partition.tweakKey],
          [p[0].partition.cryptKey, p[1].partition.cryptKey, p[2].partition.cryptKey,
           p[3].partition.cryptKey, p[4].partition.cryptKey])
  }

  ghost function DiskOf(d: D.Driver): (disk: Disk)
    requires d.Laid()
    reads d.Files()`active, d.Files()`data
  {
    var p := d.userPartitions;
    if d.rawInfo.active then RawImage(d.rawInfo.data)
    else Separate([p[0].data, p[1].data, p[2].data, p[3].data, p[4].data])
  }

  lemma SameEntries(d: D.Driver)
    requires d.Laid()
    ensures Fits(SetupOf(d), DiskOf(d))
    ensures forall i :: 0 <= i < D.PARTITION_COUNT ==> Entry(SetupOf(d), i) == d.userPartitions[i].partition
    ensures forall i: nat :: d.Mounted(i) <==> Mounted(SetupOf(d), DiskOf(d), i)
  {
    hide D.TableEntry;
  }

  lemma SamePartition(d: D.Driver, i: nat)
    requires d.Mounted(i)
    ensures Mounted(SetupOf(d), DiskOf(d), i)
    ensures d.Cipher(i) == Region(SetupOf(d), DiskOf(d), i)
  {
    hide D.TableEntry;
    SameEntries(d);
  }

  lemma SameLookup(d: D.Driver, path: string)
    requires d.Laid()
    ensures d.Lookup(path) == Find(SetupOf(d), path)
  {
    hide D.TableEntry;
    SameEntries(d);
    hide SetupOf, D.Driver.Laid;
    var r, f := d.Lookup(path), Find(SetupOf(d), path);
    assert forall i: nat :: d.Named(path, i) <==> Named(SetupOf(d), path, i);
    if r >= 0 {
      d.NamedOnce(path, r, f);
    }
  }

  /** The snapshot a write is told from describes this disk. */
  ghost predicate Told(d: D.Driver, i: nat, was: D.Snapshot, disk: Disk)
    requires i < D.PARTITION_COUNT == |d.userPartitions|
    reads d.rawInfo`active
  {
    if d.rawInfo.active then disk == RawImage(was.data)
    else
      && disk.Separate? && |disk.files| == D.PARTITION_COUNT && disk.files[i] == was.data
      && forall j :: 0 <= j < D.PARTITION_COUNT && j != i ==>
        d.userPartitions[j] in was.others && disk.files[j] == was.others[d.userPartitions[j]]
  }

  lemma SnapTold(d: D.Driver, i: nat)
    requires d.Mounted(i)
    ensures Told(d, i, d.Snap(i), DiskOf(d))
    ensures d.Snap(i).raw == Region(SetupOf(d), DiskOf(d), i)
  {
    hide D.TableEntry;
    SamePartition(d, i);
  }

  lemma WrittenRaw(d: D.Driver, i: nat, was: D.Snapshot, before: Disk, offset: nat, piece: seq<byte>)
    requires d.Reached(i, was, offset, piece) && Told(d, i, was, before) && d.rawInfo.active
    requires Mounted(SetupOf(d), before, i)
    ensures DiskOf(d) == WithRegion(SetupOf(d), before, i, d.Cipher(i))
  {
    hide D.TableEntry, View, Put, SetupOf, D.KeysOf, D.Driver.Laid, D.Driver.Contents, D.Driver.Cipher, D.Driver.Others;
    SameEntries(d);
    d.BackingCovers(i);
  }

  lemma WrittenSeparate(d: D.Driver, i: nat, was: D.Snapshot, before: Disk, offset: nat, piece: seq<byte>)
    requires d.Reached(i, was, offset, piece) && Told(d, i, was, before) && !d.rawInfo.active
    requires Mounted(SetupOf(d), before, i)
    ensures DiskOf(d) == WithRegion(SetupOf(d), before, i, d.Cipher(i))
  {
    hide D.TableEntry, View, Put, SetupOf, D.KeysOf, D.Driver.Contents, D.Driver.Cipher;
    SameEntries(d);
    d.BackingCovers(i);
    var after := WithRegion(SetupOf(d), before, i, d.Cipher(i));
    forall j | 0 <= j < D.PARTITION_COUNT ensures DiskOf(d).files[j] == after.files[j] {
      if j != i {
        assert DiskOf(d).files[j] == d.Others(i)[d.userPartitions[j]];
      }
    }
  }

  /** What NandWrite ensures is the step of the run. */
  lemma WrittenIsStep(d: D.Driver, i: nat, was: D.Snapshot, before: Disk, offset: nat, piece: seq<byte>)
    requires d.Written(i, was, offset, piece) && Told(d, i, was, before)
    requires Mounted(SetupOf(d), before, i) && was.raw == Region(SetupOf(d), before, i)
    ensures DiskOf(d) == AfterWrite(SetupOf(d), before, i, offset, piece)
  {
    hide Told, D.TableEntry, Stored, View, Put, SetupOf, DiskOf, Region, WithRegion, D.KeysOf, D.Driver.Laid,
      D.Driver.Reached, D.Driver.Cipher;
    MountedAfter(d, i, was, offset, piece);
    if d.rawInfo.active {
      WrittenRaw(d, i, was, before, offset, piece);
    } else {
      WrittenSeparate(d, i, was, before, offset, piece);
    }
  }

  lemma MountedAfter(d: D.Driver, i: nat, was: D.Snapshot, offset: nat, piece: seq<byte>)
    requires d.Reached(i, was, offset, piece)
    ensures d.Mounted(i) && Entry(SetupOf(d), i) == d.userPartitions[i].partition
  {
    hide D.TableEntry, View, Put, D.Driver.Cipher, D.Driver.Contents;
    SameEntries(d);
  }

  /** An admissible request is one NandRead and NandWrite take. */
  lemma AdmissibleInRange(d: D.Driver, op: Op)
    requires d.Laid() && Admissible(SetupOf(d), op) && d.Lookup(op.path) >= 0
    ensures var i := d.Lookup(op.path);
            && i == Find(SetupOf(d), op.path) && d.Mounted(i)
            && d.InRange(i, Length(op), op.offset) && d.Clamped(i, Length(op), op.offset) == Reach(SetupOf(d), op, i)
            && Reach(SetupOf(d), op, i) <= Length(op)
            && op.offset + Reach(SetupOf(d), op, i) <= |d.Cipher(i)|
  {
    hide D.TableEntry, Chunked, D.Clamp;
    SameLookup(d, op.path);
    SameEntries(d);
    ReachFits(SetupOf(d), op);
  }

  /** The answer of NandRead is the answer of the step. */
  lemma ReadAnswer(d: D.Driver, op: Op)
    requires d.Laid() && Admissible(SetupOf(d), op) && op.ReadOp?
    ensures |d.userPartitions| == D.PARTITION_COUNT && Fits(SetupOf(d), DiskOf(d))
    ensures var i := d.Lookup(op.path);
            && (i >= 0 ==>
              && d.Mounted(i) && d.InRange(i, op.size, op.offset)
              && d.Clamped(i, op.size, op.offset) <= op.size
              && op.offset + d.Clamped(i, op.size, op.offset) <= |d.Cipher(i)|)
            && Step(SetupOf(d), DiskOf(d), op)
            == (DiskOf(d),
                if i < 0 then Failed(-D.ENOENT)
                else if d.Clamped(i, op.size, op.offset) == 0 then Failed(-D.EINVAL)
                else Data(d.Fetched(i, op.offset, d.Clamped(i, op.size, op.offset))))
  {
    hide D.TableEntry, Chunked, Region, View, Read, D.Clamp, Admissible, D.Driver.InRange;
    SameEntries(d);
    SameLookup(d, op.path);
    if d.Lookup(op.path) >= 0 {
      AdmissibleInRange(d, op);
      SamePartition(d, d.Lookup(op.path));
    }
  }

  /** What NandRead returned and left in the buffer is the reply of the step. */
  lemma ReadReply(d: D.Driver, op: Op, r: int, before: seq<byte>, after: seq<byte>)
    requires d.Laid() && Admissible(SetupOf(d), op) && op.ReadOp?
    requires d.ReadResult(op.path, op.size, op.offset, r, before, after)
    ensures Fits(SetupOf(d), DiskOf(d)) && r <= |after|
    ensures Step(SetupOf(d), DiskOf(d), op) == (DiskOf(d), if r < 0 then Failed(r) else Data(after[..r]))
  {
    hide SetupOf, DiskOf, Fits, Step, Put, Admissible,
      D.Driver.Laid, D.Driver.Lookup, D.Driver.InRange, D.Driver.Fetched;
    ReadAnswer(d, op);
    if r >= 0 {
      PutFront(before, d.Fetched(d.Lookup(op.path), op.offset, r));
    }
  }

  method ServeRead(d: D.Driver, op: Op) returns (reply: Reply)
    requires d.Valid() && Admissible(SetupOf(d), op) && op.ReadOp?
    modifies d.Files()`locked, d.Files()`pos
    ensures d.Valid() && Fits(SetupOf(d), DiskOf(d))
    ensures Step(SetupOf(d), DiskOf(d), op) == (DiskOf(d), reply)
  {
    hide SetupOf, DiskOf, Fits, Step, Put, Admissible,
      D.Driver.Laid, D.Driver.Lookup, D.Driver.InRange, D.Driver.Fetched, D.Driver.ReadResult, D.Driver.Answered;
    ReadAnswer(d, op);
    var buf := new byte[op.size];
    ghost var zeros := buf[..];
    var r := d.NandRead(op.path, buf, op.size, op.offset);
    ReadReply(d, op, r, zeros, buf[..]);
    reply := if r < 0 then Failed(r) else Data(buf[..r]);
  }

  lemma AdmissibleLength(u: Setup, op: Op)
    requires Sound(u) && Admissible(u, op)
    ensures Length(op) < TWO64
  { }

  /** The answer of NandWrite is the answer of the step. */
  lemma WriteAnswer(d: D.Driver, op: Op)
    requires d.Laid() && Admissible(SetupOf(d), op) && op.WriteOp?
    ensures d.Tabled() && Fits(SetupOf(d), DiskOf(d)) && |op.data| < TWO64
    ensures var i := d.Lookup(op.path);
            && (i >= 0 ==>
              && d.Mounted(i) && d.InRange(i, |op.data|, op.offset)
              && d.Clamped(i, |op.data|, op.offset) <= |op.data|
              && op.offset + d.Clamped(i, |op.data|, op.offset) <= |d.Cipher(i)|)
            && Step(SetupOf(d), DiskOf(d), op)
            == if i < 0 then (DiskOf(d), Failed(-D.ENOENT))
               else if d.Clamped(i, |op.data|, op.offset) == 0 then (DiskOf(d), Failed(-D.EINVAL))
               else
                 var n := d.Clamped(i, |op.data|, op.offset);
                 (AfterWrite(SetupOf(d), DiskOf(d), i, op.offset, op.data[..n]), Count(n))
  {
    hide D.TableEntry, Chunked, Region, View, Read, Stored, WithRegion, D.Clamp, Admissible, D.Driver.InRange;
    SameEntries(d);
    SameLookup(d, op.path);
    AdmissibleLength(SetupOf(d), op);
    if d.Lookup(op.path) >= 0 {
      AdmissibleInRange(d, op);
      SamePartition(d, d.Lookup(op.path));
    }
  }

  method ServeWrite(d: D.Driver, op: Op) returns (reply: Reply)
    requires d.Valid() && Admissible(SetupOf(d), op) && op.WriteOp?
    modifies d.Files()`locked, d.Files()`pos, d.Files()`data
    ensures d.Valid() && Fits(SetupOf(d), old(DiskOf(d)))
    ensures (DiskOf(d), reply) == Step(SetupOf(d), old(DiskOf(d)), op)
  {
    hide SetupOf, Told, DiskOf, Fits, Step, Put, Admissible, AfterWrite,
      D.Driver.Laid, D.Driver.Lookup, D.Driver.InRange, D.Driver.Snap, D.Driver.Written, D.Driver.Taken;
    WriteAnswer(d, op);
    ghost var i, before := d.Lookup(op.path), DiskOf(d);
    if i >= 0 {
      SnapTold(d, i);
      SamePartition(d, i);
    }
    ghost var was := if i >= 0 then d.Snap(i) else D.Snapshot([], [], [], map[]);
    var buf := new byte[|op.data|](k requires 0 <= k < |op.data| => op.data[k]);
    assert buf[..] == op.data;
    var r := d.NandWrite(op.path, buf, |op.data|, op.offset);
    if r < 0 {
      reply := Failed(r);
    } else {
      reply := Count(r);
      assert buf[..r] == op.data[..r];
      WrittenIsStep(d, i, was, before, op.offset, op.data[..r]);
    }
  }

  method ServeOne(d: D.Driver, op: Op) returns (reply: Reply)
    requires d.Valid() && Admissible(SetupOf(d), op)
    modifies d.Files()`locked, d.Files()`pos, d.Files()`data
    ensures d.Valid() && Fits(SetupOf(d), old(DiskOf(d)))
    ensures (DiskOf(d), reply) == Step(SetupOf(d), old(DiskOf(d)), op)
  {
    hide SetupOf, DiskOf, Step, Fits, Admissible, D.Driver.Laid;
    if op.ReadOp? {
      reply := ServeRead(d, op);
    } else {
      reply := ServeWrite(d, op);
    }
  }

  lemma RunStep(u: Setup, disk: Disk, ops: seq<Op>, done: seq<Reply>)
    requires Sound(u) && Fits(u, disk) && ops != [] && forall op :: op in ops ==> Admissible(u, op)
    ensures var (next, reply) := Step(u, disk, ops[0]);
            && Run(u, disk, ops).0 == Run(u, next, ops[1..]).0
            && done + Run(u, disk, ops).1 == done + [reply] + Run(u, next, ops[1..]).1
  {
    hide Step, Fits, Admissible;
  }

  /** The requests in turn: the replies are those of plain byte arrays, and the files end up holding those arrays. */
  method Serve(d: D.Driver, ops: seq<Op>) returns (replies: seq<Reply>)
    requires d.Valid() && forall op :: op in ops ==> Admissible(SetupOf(d), op)
    modifies d.Files()`locked, d.Files()`pos, d.Files()`data
    ensures d.Valid() && Fits(SetupOf(d), DiskOf(d)) && Fits(SetupOf(d), old(DiskOf(d)))
    ensures (DiskOf(d), replies) == Run(SetupOf(d), old(DiskOf(d)), ops)
    ensures (Views(SetupOf(d), DiskOf(d)), replies)
         == PlainRun(SetupOf(d), Views(SetupOf(d), old(DiskOf(d))), ops)
  {
    hide SetupOf, DiskOf, Step, Fits, Admissible, Run, PlainRun, Views, D.Driver.Laid;
    SetupFits(d);
    ghost var u, disk := SetupOf(d), DiskOf(d);
    replies := [];
    for k := 0 to |ops|
      invariant d.Valid() && d.Tabled() && SetupOf(d) == u && Fits(u, DiskOf(d))
      invariant Run(u, disk, ops).0 == Run(u, DiskOf(d), ops[k..]).0
      invariant Run(u, disk, ops).1 == replies + Run(u, DiskOf(d), ops[k..]).1
    {
      RunStep(u, DiskOf(d), ops[k..], replies);
      assert ops[k..][0] == ops[k] && ops[k..][1..] == ops[k + 1..];
      var reply := ServeOne(d, ops[k]);
      replies := replies + [reply];
    }
    RunEnds(u, DiskOf(d), ops[|ops|..], replies);
    RunSimulates(u, disk, ops);
  }

  lemma SetupFits(d: D.Driver)
    requires d.Laid()
    ensures d.Tabled() && Fits(SetupOf(d), DiskOf(d))
  {
    SameEntries(d);
  }

  lemma RunEnds(u: Setup, disk: Disk, ops: seq<Op>, replies: seq<Reply>)
    requires Sound(u) && Fits(u, disk) && ops == []
    ensures Run(u, disk, ops).0 == disk && replies + Run(u, disk, ops).1 == replies
  { }
}
