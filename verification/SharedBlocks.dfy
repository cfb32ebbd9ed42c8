/**
 Writes that share a 16-byte block: nand_write reads and stores a block under two separate locks, so what
 another call stored between them is lost.
 */
module SharedBlocks {
  import opened Bytes
  import opened BlockCipher
  import opened Xtsn
  import opened PlainView
  import opened ReadLoop
  import opened Concurrency
  import Division

  // ---- writes that share a block ----

  lemma {:induction false} AfterJoin(tasks: seq<Task>, s: State, first: seq<nat>, rest: seq<nat>)
    requires Fine(tasks, s)
    ensures After(tasks, s, first + rest) == After(tasks, After(tasks, s, first), rest)
    decreases |rest|
  {
    hide Step, Fine;
    if rest == [] {
      assert first + rest == first;
    } else {
      var last := |rest| - 1;
      AfterJoin(tasks, s, first, rest[..last]);
      assert (first + rest)[..|first + rest| - 1] == first + rest[..last];
    }
  }

  /** Four moves in a row of one call. */
  lemma FourSteps(tasks: seq<Task>, s: State, t: nat)
    requires Fine(tasks, s)
    ensures var s1 := Step(tasks, s, t);
            && Fine(tasks, s1) && var s2 := Step(tasks, s1, t);
            && Fine(tasks, s2) && var s3 := Step(tasks, s2, t);
            && Fine(tasks, s3) && After(tasks, s, [t, t, t, t]) == Step(tasks, s3, t)
  {
    hide Step, Fine;
    var s0 := After(tasks, s, []);
    AfterPrefix(tasks, s, [], t, 0);
    AfterPrefix(tasks, s, [t], t, 0);
    AfterPrefix(tasks, s, [t, t], t, 0);
    AfterPrefix(tasks, s, [t, t, t], t, 0);
    assert [] + [t] == [t] && [t] + [t] == [t, t] && [t, t] + [t] == [t, t, t] && [t, t, t] + [t] == [t, t, t, t];
  }

  /** The variables of a call whose turn ran undisturbed up to its unlock. */
  function MovedOn(task: Task, th: Thread, data: seq<byte>): Thread
    requires TaskOk(task, |data|) && th.Active? && ThreadOk(task, th)
  {
    TurnFits(task, th, |data|);
    var from := task.vol.start + th.at;
    if th.phase.Reading? then th.(pc := Moved, buf := data[from..from + Take(task, th.done)]) else th.(pc := Moved)
  }

  lemma CallOk(tasks: seq<Task>, s: State, t: nat)
    requires Fine(tasks, s) && t < |tasks|
    ensures |s.threads| == |tasks| && TaskOk(tasks[t], |s.data|) && ThreadOk(tasks[t], s.threads[t])
  {
    hide TaskOk, ThreadOk;
  }

  lemma LockStep(tasks: seq<Task>, s: State, t: nat)
    requires Fine(tasks, s) && t < |tasks| && s.threads[t].Active?
    ensures var task, th, r := tasks[t], s.threads[t], Step(tasks, s, t);
            && (th.pc.Free? && s.holder.None? ==>
              r == s.(holder := Some(t), threads := s.threads[t := th.(pc := Locked)]))
            && (th.pc.Locked? ==>
              r == s.(pos := task.vol.start + th.at, threads := s.threads[t := th.(pc := Sought)]))
  {
    hide TaskOk, ThreadOk;
  }

  lemma MoveStep(tasks: seq<Task>, s: State, t: nat)
    requires Fine(tasks, s) && t < |tasks| && s.threads[t].Active? && s.threads[t].pc.Sought?
    ensures var task, th, r := tasks[t], s.threads[t], Step(tasks, s, t);
            && TaskOk(task, |s.data|) && ThreadOk(task, th) && s.holder == Some(t) && r.holder == s.holder
            && r.threads == s.threads[t := MovedOn(task, th, s.data)]
            && (th.phase.Writing? ==> task.vol.start + th.at + BLOCK_LEN <= |s.data|)
            && r.data == if th.phase.Reading? then s.data else Put(s.data, task.vol.start + th.at, th.buf)
  {
    hide Inverse, InStep, Chunked, Put;
    CallOk(tasks, s, t);
    TurnInside(tasks[t], s.threads[t], |s.data|);
  }

  lemma UnlockStep(tasks: seq<Task>, s: State, t: nat)
    requires Fine(tasks, s) && t < |tasks| && s.threads[t].Active? && s.threads[t].pc.Moved?
    ensures TaskOk(tasks[t], |s.data|) && ThreadOk(tasks[t], s.threads[t])
    ensures Step(tasks, s, t)
         == s.(holder := None, threads := s.threads[t := Unlocked(tasks[t], s.threads[t], |s.data|)])
  {
    hide TaskOk, ThreadOk, Unlocked;
  }

  /** A turn from lock to unlock without another call between. */
  lemma Turn(tasks: seq<Task>, s: State, t: nat)
    requires Fine(tasks, s) && t < |tasks| && s.holder.None?
    requires s.threads[t].Active? && s.threads[t].pc.Free?
    ensures var task, th := tasks[t], s.threads[t];
            var r := After(tasks, s, [t, t, t, t]);
            var moved := MovedOn(task, th, s.data);
            && ThreadOk(task, moved) && (th.phase.Writing? ==> task.vol.start + th.at + BLOCK_LEN <= |s.data|)
            && r.data == (if th.phase.Reading? then s.data else Put(s.data, task.vol.start + th.at, th.buf))
            && r.holder.None? && r.threads == s.threads[t := Unlocked(task, moved, |s.data|)]
  {
    hide Fine, After, Step, Put, Unlocked, MovedOn, TaskOk, ThreadOk;
    FourSteps(tasks, s, t);
    CallOk(tasks, s, t);
    var task, th := tasks[t], s.threads[t];
    LockStep(tasks, s, t);
    var s1 := Step(tasks, s, t);
    LockStep(tasks, s1, t);
    var s2 := Step(tasks, s1, t);
    MoveStep(tasks, s2, t);
    MovedEarlier(task, th, s.data);
    var s3 := Step(tasks, s2, t);
    UnlockStep(tasks, s3, t);
  }

  /** Only the transfer looks at where in its turn the call is. */
  lemma MovedEarlier(task: Task, th: Thread, data: seq<byte>)
    requires TaskOk(task, |data|) && th.Active? && ThreadOk(task, th) && th.pc.Free?
    ensures var sought := th.(pc := Sought);
            && ThreadOk(task, sought) && MovedOn(task, sought, data) == MovedOn(task, th, data)
            && MovedOn(task, th, data).Active? && MovedOn(task, th, data).pc.Moved?
  {
    hide Inverse, InStep, Chunked;
  }

  lemma TurnInside(task: Task, th: Thread, length: nat)
    requires TaskOk(task, length) && th.Active? && ThreadOk(task, th)
    ensures task.vol.start + th.at + Take(task, th.done) <= length
    ensures th.phase.Writing? ==> |th.buf| == BLOCK_LEN && task.vol.start + th.at + BLOCK_LEN <= length
  {
    TurnFits(task, th, length);
  }

  /** All the bytes of the call lie in block `b` of the partition. */
  predicate Within(task: Task, b: nat) {
    task.WriteTask? && BLOCK_LEN * b <= task.offset && task.offset + |task.data| <= BLOCK_LEN * (b + 1)
  }

  /** The call has read its one block and is about to store it. */
  function Holding(task: Task, y: Block): Thread {
    Active(Writing, Free, task.offset - task.offset % BLOCK_LEN, task.offset % SECTOR_SIZE, task.offset % BLOCK_LEN,
           0, y, [])
  }

  lemma OneBlockTurn(task: Task, b: nat, length: nat)
    requires TaskOk(task, length) && Within(task, b)
    ensures task.WriteTask?
    ensures var a, th := task.vol.start / BLOCK_LEN + b, Begin(task);
            && BLOCK_LEN * a == task.vol.start + th.at && BLOCK_LEN * (a + 1) <= length
            && th.skip + |task.data| <= BLOCK_LEN
            && forall c: nat :: Writes(task, c) <==> c == a
  {
    hide Inverse, Chunked;
    Division.DivUnique(task.offset, BLOCK_LEN, b, task.offset - BLOCK_LEN * b);
    assert task.vol.start == BLOCK_LEN * (task.vol.start / BLOCK_LEN);
    assert task.vol.size == BLOCK_LEN * (task.vol.size / BLOCK_LEN);
  }

  lemma OneBlockRead(task: Task, b: nat, data: seq<byte>)
    requires TaskOk(task, |data|) && Within(task, b) && ThreadOk(task, Begin(task))
    ensures var a, moved := task.vol.start / BLOCK_LEN + b, MovedOn(task, Begin(task), data);
            && BLOCK_LEN * (a + 1) <= |data| && ThreadOk(task, moved)
            && Unlocked(task, moved, |data|) == Holding(task, NewBlock(task, a, BlockAt(data, a)))
            && Begin(task).Active? && Begin(task).pc.Free? && Begin(task).phase.Reading? && task.WriteTask?
  {
    hide Inverse, InStep, Chunked, NewBlock, Merged, Within;
    OneBlockTurn(task, b, |data|);
    var a, moved := task.vol.start / BLOCK_LEN + b, MovedOn(task, Begin(task), data);
    assert moved.buf == BlockAt(data, a);
    MergedIsNew(task, moved, |data|, a);
  }

  lemma OneBlockWrite(task: Task, b: nat, data: seq<byte>, y: Block)
    requires TaskOk(task, |data|) && Within(task, b) && ThreadOk(task, Holding(task, y))
    ensures var a, th := task.vol.start / BLOCK_LEN + b, Holding(task, y);
            var moved := MovedOn(task, th, data);
            && ThreadOk(task, moved) && Unlocked(task, moved, |data|) == Done([])
            && th.Active? && th.pc.Free? && th.phase.Writing? && th.buf == y
            && BLOCK_LEN * a == task.vol.start + th.at && BLOCK_LEN * (a + 1) <= |data|
  {
    hide Inverse, InStep, Chunked, Merged, Within;
    OneBlockTurn(task, b, |data|);
  }

  lemma ReadHalf(tasks: seq<Task>, s: State, t: nat, b: nat)
    requires Fine(tasks, s) && t < |tasks| && Within(tasks[t], b) && s.holder.None?
    requires s.threads[t] == Begin(tasks[t])
    ensures var r := After(tasks, s, [t, t, t, t]);
            var task, a := tasks[t], tasks[t].vol.start / BLOCK_LEN + b;
            && task.WriteTask? && BLOCK_LEN * (a + 1) <= |s.data| && r.data == s.data && r.holder.None?
            && r.threads == s.threads[t := Holding(task, NewBlock(task, a, BlockAt(s.data, a)))]
  {
    hide Fine, After, NewBlock, Within, Unlocked, MovedOn, TaskOk, ThreadOk, BlockAt, Begin, Holding;
    CallOk(tasks, s, t);
    OneBlockRead(tasks[t], b, s.data);
    Turn(tasks, s, t);
  }

  lemma WriteHalf(tasks: seq<Task>, s: State, t: nat, b: nat, y: Block)
    requires Fine(tasks, s) && t < |tasks| && Within(tasks[t], b) && s.holder.None?
    requires s.threads[t] == Holding(tasks[t], y)
    ensures var r := After(tasks, s, [t, t, t, t]);
            var a := tasks[t].vol.start / BLOCK_LEN + b;
            && BLOCK_LEN * (a + 1) <= |s.data| && r.data == Put(s.data, BLOCK_LEN * a, y) && r.holder.None?
            && r.threads == s.threads[t := Done([])]
  {
    hide Fine, After, Within, Unlocked, MovedOn, TaskOk, ThreadOk, Put, Holding;
    CallOk(tasks, s, t);
    OneBlockWrite(tasks[t], b, s.data, y);
    Turn(tasks, s, t);
  }

  /** A write of one block alone. */
  lemma FileAfterOneBlock(task: Task, b: nat, data: seq<byte>)
    requires TaskOk(task, |data|) && Within(task, b)
    ensures var a := task.vol.start / BLOCK_LEN + b;
            && BLOCK_LEN * (a + 1) <= |data|
            && FileAfter(task, data) == Put(data, BLOCK_LEN * a, NewBlock(task, a, BlockAt(data, a)))
  {
    hide FileAfter, NewBlock, Put, Inverse, Within, BlockAt;
    OneBlockTurn(task, b, |data|);
    var a := task.vol.start / BLOCK_LEN + b;
    var y := NewBlock(task, a, BlockAt(data, a));
    var l, r := FileAfter(task, data), Put(data, BLOCK_LEN * a, y);
    forall c: nat | BLOCK_LEN * (c + 1) <= |data| ensures BlockAt(l, c) == BlockAt(r, c) {
      FileAfterBlock(task, data, c);
      BlockOfPut(data, a, y, c);
    }
    FileAfterTail(task, data);
    TailOfPut(data, a, y);
    SameBlocksAndTail(l, r);
  }

  function BothRead(): seq<nat> {
    [0, 1] + [0, 0, 0, 0] + [1, 1, 1, 1]
  }

  function BothWrite(): seq<nat> {
    [0, 0, 0, 0] + [1, 1, 1, 1]
  }

  lemma BothBegin(tasks: seq<Task>, s: State)
    requires Initial(tasks, s) && |tasks| == 2
    ensures After(tasks, s, [0, 1]) == s.(threads := [Begin(tasks[0]), Begin(tasks[1])]) && s.holder.None?
  {
    hide Begin, TaskOk;
    AfterPrefix(tasks, s, [], 0, 0);
    AfterPrefix(tasks, s, [0], 1, 0);
    assert [] + [0] == [0] && [0] + [1] == [0, 1];
    assert After(tasks, s, []) == s;
    var s1 := Step(tasks, s, 0);
    assert s1.threads == s.threads[0 := Begin(tasks[0])];
    assert Step(tasks, s1, 1).threads == [Begin(tasks[0]), Begin(tasks[1])];
  }

  /** Block `a` of the file as the call makes it from the start. */
  function Makes(task: Task, b: nat, data: seq<byte>): Block
    requires TaskOk(task, |data|) && Within(task, b)
  {
    OneBlockTurn(task, b, |data|);
    NewBlock(task, task.vol.start / BLOCK_LEN + b, BlockAt(data, task.vol.start / BLOCK_LEN + b))
  }

  lemma FirstReadsIt(tasks: seq<Task>, s: State, b: nat)
    requires Initial(tasks, s) && |tasks| == 2 && Within(tasks[0], b) && Within(tasks[1], b)
    ensures TaskOk(tasks[0], |s.data|) && TaskOk(tasks[1], |s.data|)
    ensures var r := After(tasks, s, [0, 1] + [0, 0, 0, 0]);
            && r.data == s.data && r.holder.None?
            && r.threads == [Holding(tasks[0], Makes(tasks[0], b, s.data)), Begin(tasks[1])]
  {
    hide Fine, After, Within, TaskOk, NewBlock, BlockAt, Begin, Holding;
    BothBegin(tasks, s);
    TasksOk(tasks, s);
    AfterJoin(tasks, s, [0, 1], [0, 0, 0, 0]);
    ReadHalf(tasks, After(tasks, s, [0, 1]), 0, b);
  }

  lemma BothReadIt(tasks: seq<Task>, s: State, b: nat)
    requires Initial(tasks, s) && |tasks| == 2 && Within(tasks[0], b) && Within(tasks[1], b)
    ensures TaskOk(tasks[0], |s.data|) && TaskOk(tasks[1], |s.data|)
    ensures var r := After(tasks, s, BothRead());
            && r.data == s.data && r.holder.None?
            && r.threads == [Holding(tasks[0], Makes(tasks[0], b, s.data)),
                             Holding(tasks[1], Makes(tasks[1], b, s.data))]
  {
    hide Fine, After, Within, TaskOk, NewBlock, BlockAt, Begin, Holding;
    FirstReadsIt(tasks, s, b);
    AfterJoin(tasks, s, [0, 1] + [0, 0, 0, 0], [1, 1, 1, 1]);
    ReadHalf(tasks, After(tasks, s, [0, 1] + [0, 0, 0, 0]), 1, b);
  }

  lemma BothStoreIt(tasks: seq<Task>, s: State, b: nat, x: Block, y: Block)
    requires Fine(tasks, s) && |tasks| == 2 && Within(tasks[0], b) && Within(tasks[1], b)
    requires s.holder.None? && s.threads == [Holding(tasks[0], x), Holding(tasks[1], y)]
    requires tasks[0].vol == tasks[1].vol
    ensures var r, a := After(tasks, s, BothWrite()), tasks[1].vol.start / BLOCK_LEN + b;
            && AllDone(r) && BLOCK_LEN * (a + 1) <= |s.data| && r.data == Put(s.data, BLOCK_LEN * a, y)
  {
    hide Fine, After, Within, Put, Holding;
    WriteHalf(tasks, s, 0, b, x);
    AfterJoin(tasks, s, [0, 0, 0, 0], [1, 1, 1, 1]);
    WriteHalf(tasks, After(tasks, s, [0, 0, 0, 0]), 1, b, y);
    PutTwice(s.data, BLOCK_LEN * (tasks[1].vol.start / BLOCK_LEN + b), x, y);
  }

  /** Two writes inside one block: both read it, then both store it, and the first one might not have run. */
  lemma LostUpdate(tasks: seq<Task>, s: State, b: nat)
    requires Initial(tasks, s) && |tasks| == 2 && Within(tasks[0], b) && Within(tasks[1], b)
    requires tasks[0].vol == tasks[1].vol
    ensures AllDone(After(tasks, s, BothRead() + BothWrite()))
    ensures TaskOk(tasks[1], |s.data|)
    ensures After(tasks, s, BothRead() + BothWrite()).data == FileAfter(tasks[1], s.data)
  {
    hide Fine, After, Within, TaskOk, FileAfter, NewBlock, BlockAt, Put, Holding, AllDone, BothRead, BothWrite;
    BothReadIt(tasks, s, b);
    AfterJoin(tasks, s, BothRead(), BothWrite());
    BothStoreIt(tasks, After(tasks, s, BothRead()), b, Makes(tasks[0], b, s.data), Makes(tasks[1], b, s.data));
    FileAfterOneBlock(tasks[1], b, s.data);
  }

  lemma TasksOk(tasks: seq<Task>, s: State)
    requires Fine(tasks, s)
    ensures forall t :: 0 <= t < |tasks| ==> TaskOk(tasks[t], |s.data|)
  { }

  // ---- any calls, any number of blocks ----

  /** Byte `q` of the file is one the call writes. */
  predicate Owns(task: Task, q: nat) {
    task.WriteTask? && task.vol.start + task.offset <= q < task.vol.start + task.offset + |task.data|
  }

  /** It is one no other call writes. */
  ghost predicate Alone(tasks: seq<Task>, t: nat, q: nat) {
    t < |tasks| && Owns(tasks[t], q) && forall u :: 0 <= u < |tasks| && Owns(tasks[u], q) ==> u == t
  }

  /** The plaintext of block `a` of the file, if it holds `x`. */
  function Opened(v: Volume, a: nat, x: Block): Block {
    ViewBlock(v.encrypted, v.keys, if BLOCK_LEN * a < v.start then 0 else a - v.start / BLOCK_LEN, x)
  }

  /** Two plaintexts of block `a` agree on the bytes that call `t` alone writes. */
  ghost predicate Agree(tasks: seq<Task>, t: nat, a: nat, x: Block, y: Block) {
    forall i :: 0 <= i < BLOCK_LEN && Alone(tasks, t, BLOCK_LEN * a + i) ==> x[i] == y[i]
  }

  /** Call `u` works on block `a` and holds it, read or about to be stored. */
  predicate Holds(task: Task, th: Thread, a: nat) {
    && task.WriteTask? && th.Active? && task.vol.start + th.at == BLOCK_LEN * a && |th.buf| == BLOCK_LEN
    && (th.phase.Writing? || th.pc.Moved?)
  }

  /** Whoever of the others holds block `a` holds `c` on the bytes of call `t`. */
  ghost predicate HeldStale(tasks: seq<Task>, t: nat, v: Volume, a: nat, c: Block, s: State)
    requires |s.threads| == |tasks|
  {
    forall w :: 0 <= w < |tasks| && w != t && Holds(tasks[w], s.threads[w], a) ==>
      Agree(tasks, t, a, Opened(v, a, s.threads[w].buf), c)
  }

  ghost predicate Stale(tasks: seq<Task>, t: nat, v: Volume, a: nat, c: Block, s: State)
    requires |s.threads| == |tasks|
  {
    && BLOCK_LEN * (a + 1) <= |s.data|
    && Agree(tasks, t, a, Opened(v, a, BlockAt(s.data, a)), c)
    && HeldStale(tasks, t, v, a, c, s)
  }

  /** All calls that write block `a` do so in partition `v`. */
  ghost predicate OneVolume(tasks: seq<Task>, v: Volume, a: nat) {
    v.start % BLOCK_LEN == 0 && v.start <= BLOCK_LEN * a && Inverse(v.keys.crypt)
    && forall w :: 0 <= w < |tasks| && Writes(tasks[w], a) ==> tasks[w].vol == v
  }

  /** Making the new block leaves the bytes of other calls. */
  lemma NewBlockAgrees(tasks: seq<Task>, t: nat, w: nat, v: Volume, a: nat, x: Block, c: Block)
    requires w < |tasks| && w != t && OneVolume(tasks, v, a) && Writes(tasks[w], a)
    requires Agree(tasks, t, a, Opened(v, a, x), c)
    ensures Agree(tasks, t, a, Opened(v, a, NewBlock(tasks[w], a, x)), c)
  {
    hide StoredBlock, ViewBlock, Inverse;
    var b := a - v.start / BLOCK_LEN;
    var y := Overlay(tasks[w].offset, tasks[w].data, BLOCK_LEN * b, Opened(v, a, x));
    assert v.start == BLOCK_LEN * (v.start / BLOCK_LEN);
    StoredThenViewed(v.encrypted, v.keys, b, y);
  }

  /** A step of another call keeps all that. */
  lemma StaleStep(tasks: seq<Task>, t: nat, v: Volume, a: nat, c: Block, s: State, w: nat)
    requires Fine(tasks, s) && OneVolume(tasks, v, a) && Stale(tasks, t, v, a, c, s)
    requires w != t
    ensures |Step(tasks, s, w).threads| == |tasks| && Stale(tasks, t, v, a, c, Step(tasks, s, w))
  {
    hide Inverse, InStep, Chunked, NewBlock, Agree, Opened, Writes, Put, Merged;
    StepFine(tasks, s, w);
    if w < |tasks| {
      OthersStay(tasks, s, w);
      StaleData(tasks, t, v, a, c, s, w);
      StaleBuf(tasks, t, v, a, c, s, w);
      hide Step, Fine;
    }
  }

  lemma StaleData(tasks: seq<Task>, t: nat, v: Volume, a: nat, c: Block, s: State, w: nat)
    requires Fine(tasks, s) && Stale(tasks, t, v, a, c, s) && w != t && w < |tasks|
    ensures |Step(tasks, s, w).data| == |s.data|
    ensures Agree(tasks, t, a, Opened(v, a, BlockAt(Step(tasks, s, w).data, a)), c)
  {
    hide Inverse, InStep, Chunked, Agree, Opened, Put, Unlocked, BlockAt, Begin;
    var task, th := tasks[w], s.threads[w];
    StepFine(tasks, s, w);
    if StoresBlock(th) && task.WriteTask? {
      OwnBlock(task, th, |s.data|);
      BlockOfPut(s.data, (task.vol.start + th.at) / BLOCK_LEN, th.buf, a);
    }
  }

  lemma StaleBuf(tasks: seq<Task>, t: nat, v: Volume, a: nat, c: Block, s: State, w: nat)
    requires Fine(tasks, s) && OneVolume(tasks, v, a) && Stale(tasks, t, v, a, c, s) && w != t && w < |tasks|
    ensures |Step(tasks, s, w).threads| == |tasks|
    ensures var th := Step(tasks, s, w).threads[w];
            Holds(tasks[w], th, a) ==> Agree(tasks, t, a, Opened(v, a, th.buf), c)
  {
    hide Inverse, InStep, Chunked, NewBlock, Agree, Opened, Writes, Put, Merged, NextSectorOffset;
    var task, th := tasks[w], s.threads[w];
    ThreadStaysOk(tasks, s, w);
    var r := Step(tasks, s, w).threads[w];
    if Holds(task, r, a) && th.Active? {
      OwnBlock(task, th, |s.data|);
      if th.phase.Reading? && th.pc.Sought? {
        assert s.data[s.pos..s.pos + BLOCK_LEN] == BlockAt(s.data, a);
      } else if th.phase.Reading? && th.pc.Moved? {
        MergedIsNew(task, th, |s.data|, (task.vol.start + th.at) / BLOCK_LEN);
        NewBlockAgrees(tasks, t, w, v, a, th.buf, c);
      }
    }
  }

  // ---- calls that run undisturbed ----

  /** Call `w` has the lock or can take it. */
  predicate Clear(s: State, w: nat) {
    s.holder.None? || s.holder == Some(w)
  }

  lemma SoloStep(tasks: seq<Task>, s: State, w: nat)
    requires Fine(tasks, s) && w < |tasks| && Clear(s, w) && !s.threads[w].Done?
    ensures var r := Step(tasks, s, w);
            && Fine(tasks, r) && Clear(r, w) && After(tasks, s, [w]) == r
            && |r.threads| == |tasks| && Left(tasks[w], r.threads[w]) < Left(tasks[w], s.threads[w])
            && forall u :: 0 <= u < |tasks| && u != w ==> r.threads[u] == s.threads[u]
  {
    hide Inverse, InStep, Chunked, TaskOk, ThreadOk, Unlocked, Take, Left, Put;
    StepFine(tasks, s, w);
    assert Step(tasks, s, w).threads[w] != s.threads[w];
    StepCounts(tasks, s, w);
    AfterPrefix(tasks, s, [], w, 0);
    assert [] + [w] == [w] && After(tasks, s, []) == s;
  }

  /** The call has not come to the point of storing block `a`. */
  predicate Before(task: Task, th: Thread, a: nat) {
    th.Idle? || (th.Active? && (task.vol.start + th.at < BLOCK_LEN * a
                                || (task.vol.start + th.at == BLOCK_LEN * a && th.phase.Reading?)))
  }

  /** It is about to store it. */
  predicate Pending(task: Task, th: Thread, a: nat) {
    th.Active? && th.phase.Writing? && task.vol.start + th.at == BLOCK_LEN * a && !th.pc.Moved?
  }

  lemma BeforeTurn(task: Task, th: Thread, length: nat, a: nat)
    requires TaskOk(task, length) && ThreadOk(task, th) && Writes(task, a) && Before(task, th, a)
    ensures th.Idle? ==> Before(task, Begin(task), a)
    ensures th.Active? && th.pc.Moved? ==>
      var r := Unlocked(task, th, length);
      r.Active? && r.pc.Free? && (Before(task, r, a) || Pending(task, r, a))
  {
    hide Merged, NextSectorOffset, Inverse, Chunked;
    if th.Idle? {
      AtOrAfter(task.vol.start, task.offset, a);
    } else {
      TurnFits(task, th, length);
      EndsInBlock(task.vol.start, th.at, th.skip, Copied(task, th.done, th.skip), a);
    }
  }

  lemma BeforeStep(tasks: seq<Task>, s: State, u: nat, a: nat)
    requires Fine(tasks, s) && u < |tasks| && Writes(tasks[u], a) && Before(tasks[u], s.threads[u], a)
    ensures var r := Step(tasks, s, u);
            && |r.threads| == |tasks|
            && (Before(tasks[u], r.threads[u], a) || (Pending(tasks[u], r.threads[u], a) && r.threads[u].pc.Free?))
  {
    hide Inverse, InStep, Chunked, TaskOk, ThreadOk, Unlocked, Take, Put, Begin, Writes;
    CallOk(tasks, s, u);
    BeforeTurn(tasks[u], s.threads[u], |s.data|, a);
    StepFine(tasks, s, u);
  }

  /** Alone, a call that writes block `a` comes to hold it ready to be stored. */
  lemma {:induction false} RunToPending(tasks: seq<Task>, t: nat, v: Volume, a: nat, c: Block, s: State, u: nat)
      returns (schedule: seq<nat>)
    requires Fine(tasks, s) && OneVolume(tasks, v, a) && Stale(tasks, t, v, a, c, s)
    requires u < |tasks| && u != t && Writes(tasks[u], a) && Clear(s, u) && Before(tasks[u], s.threads[u], a)
    ensures var r := After(tasks, s, schedule);
            && Stale(tasks, t, v, a, c, r) && r.holder.None? && Pending(tasks[u], r.threads[u], a)
            && forall w :: 0 <= w < |tasks| && w != u ==> r.threads[w] == s.threads[w]
    decreases Left(tasks[u], s.threads[u])
  {
    hide Step, Writes, Left, Stale, OneVolume;
    SoloStep(tasks, s, u);
    BeforeStep(tasks, s, u, a);
    StaleStep(tasks, t, v, a, c, s, u);
    var r := Step(tasks, s, u);
    if Before(tasks[u], r.threads[u], a) {
      var rest := RunToPending(tasks, t, v, a, c, r, u);
      schedule := [u] + rest;
      AfterJoin(tasks, s, [u], rest);
    } else {
      schedule := [u];
    }
  }

  /** Alone, a call comes to its end. */
  lemma {:induction false} RunToDone(tasks: seq<Task>, s: State, w: nat) returns (schedule: seq<nat>)
    requires Fine(tasks, s) && w < |tasks| && Clear(s, w)
    ensures var r := After(tasks, s, schedule);
            && r.threads[w].Done? && r.holder.None?
            && forall u :: 0 <= u < |tasks| && u != w ==> r.threads[u] == s.threads[u]
    decreases Left(tasks[w], s.threads[w])
  {
    hide Step, Left, TaskOk, ThreadOk;
    if s.threads[w].Done? {
      schedule := [];
    } else {
      SoloStep(tasks, s, w);
      var rest := RunToDone(tasks, Step(tasks, s, w), w);
      schedule := [w] + rest;
      AfterJoin(tasks, s, [w], rest);
    }
  }

  lemma PendingStep(tasks: seq<Task>, t: nat, v: Volume, a: nat, c: Block, s: State, u: nat)
    requires Fine(tasks, s) && u < |tasks| && u != t && tasks[u].WriteTask? && HeldStale(tasks, t, v, a, c, s)
    requires Clear(s, u) && Pending(tasks[u], s.threads[u], a)
    ensures var r := Step(tasks, s, u);
            && |r.threads| == |tasks| && HeldStale(tasks, t, v, a, c, r)
            && (Pending(tasks[u], r.threads[u], a) || Stale(tasks, t, v, a, c, r))
  {
    hide Inverse, InStep, Chunked, Agree, Opened, Put, BlockAt;
    StepFine(tasks, s, u);
    OthersStay(tasks, s, u);
    var task, th, r := tasks[u], s.threads[u], Step(tasks, s, u);
    OwnBlock(task, th, |s.data|);
    assert Holds(task, th, a);
    assert r.threads[u].Active? && r.threads[u].buf == th.buf;
    if th.pc.Sought? {
      BlockOfPut(s.data, a, th.buf, a);
    }
  }

  /** Then it stores the block as it held it, whatever the file holds by now. */
  lemma {:induction false} RunToStored(tasks: seq<Task>, t: nat, v: Volume, a: nat, c: Block, s: State, u: nat)
      returns (schedule: seq<nat>)
    requires Fine(tasks, s) && u < |tasks| && u != t && tasks[u].WriteTask? && HeldStale(tasks, t, v, a, c, s)
    requires Clear(s, u) && Pending(tasks[u], s.threads[u], a)
    ensures var r := After(tasks, s, schedule);
            && Stale(tasks, t, v, a, c, r)
            && forall w :: 0 <= w < |tasks| && w != u ==> r.threads[w] == s.threads[w]
    decreases Left(tasks[u], s.threads[u])
  {
    hide Step, Left, Stale, HeldStale;
    SoloStep(tasks, s, u);
    PendingStep(tasks, t, v, a, c, s, u);
    var r := Step(tasks, s, u);
    if Pending(tasks[u], r.threads[u], a) {
      var rest := RunToStored(tasks, t, v, a, c, r, u);
      schedule := [u] + rest;
      AfterJoin(tasks, s, [u], rest);
    } else {
      schedule := [u];
    }
  }

  /** Once call `t` is done, the others may finish in any way: nobody brings its bytes back. */
  lemma {:induction false} RunToEnd(tasks: seq<Task>, t: nat, v: Volume, a: nat, c: Block, s: State)
      returns (schedule: seq<nat>)
    requires Fine(tasks, s) && OneVolume(tasks, v, a) && Stale(tasks, t, v, a, c, s)
    requires t < |tasks| && s.threads[t].Done?
    ensures var r := After(tasks, s, schedule); AllDone(r) && Stale(tasks, t, v, a, c, r)
    decreases AllLeft(tasks, s.threads)
  {
    hide Step, Stale, OneVolume, Fine, AllLeft;
    if AllDone(s) {
      schedule := [];
    } else {
      NeverStuck(tasks, s);
      var w: nat :| w < |tasks| && Step(tasks, s, w) != s;
      var r := MovingStep(tasks, s, w, t);
      StaleStep(tasks, t, v, a, c, s, w);
      var rest := RunToEnd(tasks, t, v, a, c, r);
      schedule := [w] + rest;
      AfterJoin(tasks, s, [w], rest);
    }
  }

  lemma MovingStep(tasks: seq<Task>, s: State, w: nat, t: nat) returns (r: State)
    requires Fine(tasks, s) && w < |tasks| && t < |tasks| && Step(tasks, s, w) != s && s.threads[t].Done?
    ensures r == Step(tasks, s, w) == After(tasks, s, [w]) && Fine(tasks, r) && w != t
    ensures |r.threads| == |tasks| && r.threads[t].Done? && AllLeft(tasks, r.threads) < AllLeft(tasks, s.threads)
  {
    hide Inverse, InStep, Chunked, TaskOk, ThreadOk, Unlocked, Take, Left, Put;
    r := Step(tasks, s, w);
    StepFine(tasks, s, w);
    StepCounts(tasks, s, w);
    LeftAfterOne(tasks, s.threads, w, r.threads[w]);
    AfterPrefix(tasks, s, [], w, 0);
    assert [] + [w] == [w] && After(tasks, s, []) == s;
  }

  lemma ClearAtStart(tasks: seq<Task>, s: State, t: nat, v: Volume, a: nat)
    requires Initial(tasks, s) && BLOCK_LEN * (a + 1) <= |s.data|
    ensures s.holder.None? && |s.threads| == |tasks| && Stale(tasks, t, v, a, Opened(v, a, BlockAt(s.data, a)), s)
  {
    hide TaskOk, ThreadOk, Opened, BlockAt;
  }

  lemma BlockOfWriter(task: Task, a: nat, length: nat)
    requires TaskOk(task, length) && Writes(task, a)
    ensures task.WriteTask?
    ensures task.vol.start <= BLOCK_LEN * a && BLOCK_LEN * (a + 1) <= task.vol.start + task.vol.size <= length
  {
    hide Inverse;
    assert task.vol.start == BLOCK_LEN * (task.vol.start / BLOCK_LEN);
    assert task.vol.size == BLOCK_LEN * (task.vol.size / BLOCK_LEN);
  }

  /**
   Whatever else runs, two calls that write one block can end so that the bytes of that block which the
   first alone writes are as at the start: the second reads the block, the first runs to its end, the
   second stores what it read.
   */
  lemma LostBytes(tasks: seq<Task>, s: State, t: nat, u: nat, v: Volume, a: nat)
      returns (schedule: seq<nat>)
    requires Initial(tasks, s) && t < |tasks| && u < |tasks| && t != u
    requires Writes(tasks[t], a) && Writes(tasks[u], a) && OneVolume(tasks, v, a)
    ensures BLOCK_LEN * (a + 1) <= |s.data| && AllDone(After(tasks, s, schedule))
    ensures Agree(tasks, t, a, Opened(v, a, BlockAt(After(tasks, s, schedule).data, a)),
                  Opened(v, a, BlockAt(s.data, a)))
  {
    hide Agree, Opened, OneVolume, After, BlockAt, Fine, Writes;
    CallOk(tasks, s, t);
    CallOk(tasks, s, u);
    BlockOfWriter(tasks[t], a, |s.data|);
    BlockOfWriter(tasks[u], a, |s.data|);
    ClearAtStart(tasks, s, t, v, a);
    var c := Opened(v, a, BlockAt(s.data, a));
    var first := RunToPending(tasks, t, v, a, c, s, u);
    var s1 := After(tasks, s, first);
    var second := RunToDone(tasks, s1, t);
    var s2 := After(tasks, s1, second);
    var third := RunToStored(tasks, t, v, a, c, s2, u);
    var s3 := After(tasks, s2, third);
    var fourth := RunToEnd(tasks, t, v, a, c, s3);
    AfterJoin(tasks, s, first, second);
    AfterJoin(tasks, s, first + second, third);
    AfterJoin(tasks, s, first + second + third, fourth);
    schedule := first + second + third + fourth;
  }

  // ---- no serial order ends there ----

  /** In every serial order the bytes a call alone writes are its own. */
  lemma {:induction false} PlainSerialByte(v: Volume, tasks: seq<Task>, order: seq<nat>, p: seq<byte>, t: nat, o: nat)
    requires |p| == v.size && o < v.size && Alone(tasks, t, v.start + o) && tasks[t].vol == v
    requires forall i :: 0 <= i < |order| ==>
      order[i] < |tasks| && tasks[order[i]].WriteTask?
      && tasks[order[i]].offset + |tasks[order[i]].data| <= tasks[order[i]].vol.size
    ensures PlainSerial(v, tasks, order, p)[o] == if t in order then tasks[t].data[o - tasks[t].offset] else p[o]
  {
    if order != [] {
      var last := |order| - 1;
      PlainSerialByte(v, tasks, order[..last], p, t, o);
      assert order == order[..last] + [order[last]];
    }
  }

  lemma ViewByte(v: Volume, data: seq<byte>, a: nat, i: nat)
    requires v.start % BLOCK_LEN == 0 && v.size % BLOCK_LEN == 0 && v.start + v.size <= |data|
    requires v.start <= BLOCK_LEN * a && BLOCK_LEN * (a + 1) <= v.start + v.size && i < BLOCK_LEN
    ensures var o := BLOCK_LEN * a + i - v.start;
            0 <= o < v.size && View(v.encrypted, v.keys, Region(v, data))[o] == Opened(v, a, BlockAt(data, a))[i]
  {
    hide View, ViewBlock;
    BlockInVolume(v, a, |data|);
    var b := a - v.start / BLOCK_LEN;
    assert v.start == BLOCK_LEN * (v.start / BLOCK_LEN);
    ViewAt(v.encrypted, v.keys, Region(v, data), b);
    BlockByte(View(v.encrypted, v.keys, Region(v, data)), b, i);
    SliceOfSlice(data, v.start, v.size, BLOCK_LEN * b, BLOCK_LEN * b + BLOCK_LEN);
  }

  /** The file is none that a serial order leaves. */
  ghost predicate NotSerial(tasks: seq<Task>, start: seq<byte>, data: seq<byte>) {
    forall order :: Order(tasks, order) && Writers(tasks, order, |start|) ==> data != Serial(tasks, order, start)
  }

  /**
   Two calls that write one block can end as in no serial order, from every start in which a byte of that
   block that the first alone writes differs from what it writes.
   */
  lemma SharedBlockNotSerial(tasks: seq<Task>, s: State, t: nat, u: nat, a: nat, i: nat)
      returns (schedule: seq<nat>)
    requires Initial(tasks, s) && t < |tasks| && u < |tasks| && t != u && i < BLOCK_LEN
    requires Writes(tasks[t], a) && Writes(tasks[u], a) && BLOCK_LEN * (a + 1) <= |s.data|
    requires var v := tasks[t].vol;
             && OneVolume(tasks, v, a) && Apart(v, tasks) && Alone(tasks, t, BLOCK_LEN * a + i)
             && Opened(v, a, BlockAt(s.data, a))[i]
             != tasks[t].data[BLOCK_LEN * a + i - v.start - tasks[t].offset]
    ensures AllDone(After(tasks, s, schedule)) && NotSerial(tasks, s.data, After(tasks, s, schedule).data)
  {
    hide Opened, OneVolume, After, BlockAt, Fine, Writes, AllDone, Apart, Serial, View, Region, TaskOk;
    var v := tasks[t].vol;
    CallOk(tasks, s, t);
    VolumeOk(tasks[t], |s.data|);
    BlockOfWriter(tasks[t], a, |s.data|);
    schedule := LostBytes(tasks, s, t, u, v, a);
    var r := After(tasks, s, schedule);
    var o := BLOCK_LEN * a + i - v.start;
    ViewByte(v, r.data, a, i);
    forall order | Order(tasks, order) && Writers(tasks, order, |s.data|)
      ensures r.data != Serial(tasks, order, s.data)
    {
      InRanges(tasks, order, |s.data|);
      SerialView(v, tasks, order, s.data);
      PlainSerialByte(v, tasks, order, View(v.encrypted, v.keys, Region(v, s.data)), t, o);
    }
  }

  lemma VolumeOk(task: Task, length: nat)
    requires TaskOk(task, length)
    ensures var v := task.vol; v.start % BLOCK_LEN == 0 && v.size % BLOCK_LEN == 0 && v.start + v.size <= length
  { }

  lemma InRanges(tasks: seq<Task>, order: seq<nat>, length: nat)
    requires Writers(tasks, order, length)
    ensures forall i :: 0 <= i < |order| ==>
      order[i] < |tasks| && tasks[order[i]].WriteTask?
      && tasks[order[i]].offset + |tasks[order[i]].data| <= tasks[order[i]].vol.size
  { }

  // ---- the exact condition ----

  /** No two calls write the same byte. */
  ghost predicate BytesDisjoint(tasks: seq<Task>) {
    forall t, u, q: nat :: 0 <= t < |tasks| && 0 <= u < |tasks| && Owns(tasks[t], q) && Owns(tasks[u], q) ==> t == u
  }

  /** Any two calls are on one partition or on two that do not meet. */
  ghost predicate VolumesFit(tasks: seq<Task>) {
    forall t :: 0 <= t < |tasks| ==> Apart(tasks[t].vol, tasks)
  }

  ghost predicate TasksFit(tasks: seq<Task>, length: nat) {
    forall t :: 0 <= t < |tasks| ==> TaskOk(tasks[t], length)
  }

  /** From every file of this length, every run that does all calls ends as some serial order of the writes ends. */
  ghost predicate AlwaysSerial(tasks: seq<Task>, length: nat) {
    forall s, schedule ::
      Initial(tasks, s) && |s.data| == length && AllDone(After(tasks, s, schedule)) ==>
      !NotSerial(tasks, s.data, After(tasks, s, schedule).data)
  }

  /** The writes in the order they are listed. */
  ghost function ListedOrder(tasks: seq<Task>, n: nat): (r: seq<nat>)
    requires n <= |tasks|
    ensures forall t: nat :: t in r <==> t < n && tasks[t].WriteTask?
    ensures forall i, j :: 0 <= i < j < |r| ==> r[i] != r[j]
  {
    if n == 0 then []
    else
      var before := ListedOrder(tasks, n - 1);
      if tasks[n - 1].WriteTask? then before + [n - 1] else before
  }

  lemma StartState(tasks: seq<Task>, data: seq<byte>) returns (s: State)
    requires TasksFit(tasks, |data|)
    ensures Initial(tasks, s) && s.data == data
  {
    hide TaskOk;
    s := State(data, 0, None, seq(|tasks|, _ => Idle));
  }

  /** A file whose plaintext at byte `i` of block `a` is not `x`. */
  lemma OtherByte(v: Volume, a: nat, length: nat, i: nat, x: byte) returns (data: seq<byte>)
    requires Inverse(v.keys.crypt) && BLOCK_LEN * (a + 1) <= length && i < BLOCK_LEN
    ensures |data| == length && Opened(v, a, BlockAt(data, a))[i] != x
  {
    hide StoredBlock, ViewBlock, Inverse;
    var b := if BLOCK_LEN * a < v.start then 0 else a - v.start / BLOCK_LEN;
    var y: Block := ZERO_BLOCK[i := x + 1];
    var zeros := Zeros(length);
    data := Put(zeros, BLOCK_LEN * a, StoredBlock(v.encrypted, v.keys, b, y));
    StoredThenViewed(v.encrypted, v.keys, b, y);
    BlockOfPut(zeros, a, StoredBlock(v.encrypted, v.keys, b, y), a);
  }

  /** Calls that write one block are on one partition. */
  lemma SharersOneVolume(tasks: seq<Task>, length: nat, t: nat, a: nat)
    requires TasksFit(tasks, length) && VolumesFit(tasks) && t < |tasks| && Writes(tasks[t], a)
    ensures OneVolume(tasks, tasks[t].vol, a)
  {
    hide Writes;
    var v := tasks[t].vol;
    BlockOfWriter(tasks[t], a, length);
    forall w | 0 <= w < |tasks| && Writes(tasks[w], a) ensures tasks[w].vol == v {
      BlockOfWriter(tasks[w], a, length);
      assert Apart(v, tasks);
    }
  }

  /** A byte of block `a` that call `t` writes. */
  lemma ByteOfWriter(task: Task, a: nat) returns (i: nat)
    requires Writes(task, a) && |task.data| > 0
    ensures i < BLOCK_LEN && Owns(task, BLOCK_LEN * a + i)
  {
    var q := task.vol.start + task.offset;
    i := if q < BLOCK_LEN * a then 0 else q - BLOCK_LEN * a;
  }

  lemma SharingFails(tasks: seq<Task>, length: nat, t: nat, u: nat, a: nat)
    requires TasksFit(tasks, length) && VolumesFit(tasks) && BytesDisjoint(tasks)
    requires t < |tasks| && u < |tasks| && t != u && Writes(tasks[t], a) && Writes(tasks[u], a)
    ensures !AlwaysSerial(tasks, length)
  {
    hide Inverse, Opened, After, BlockAt, NotSerial, Writes;
    var v := tasks[t].vol;
    assert TaskOk(tasks[t], length);
    BlockOfWriter(tasks[t], a, length);
    SharersOneVolume(tasks, length, t, a);
    var i := ByteOfWriter(tasks[t], a);
    assert Alone(tasks, t, BLOCK_LEN * a + i);
    var data := OtherByte(v, a, length, i, tasks[t].data[BLOCK_LEN * a + i - v.start - tasks[t].offset]);
    var s := StartState(tasks, data);
    var schedule := SharedBlockNotSerial(tasks, s, t, u, a, i);
    assert Initial(tasks, s) && |s.data| == length;
  }

  lemma DisjointSuffices(tasks: seq<Task>, length: nat)
    requires Disjoint(tasks)
    ensures AlwaysSerial(tasks, length)
  {
    hide Fine, After, AllDone, Order, Disjoint, Serial;
    forall s, schedule | Initial(tasks, s) && |s.data| == length && AllDone(After(tasks, s, schedule))
      ensures !NotSerial(tasks, s.data, After(tasks, s, schedule).data)
    {
      var order := ListedOrder(tasks, |tasks|);
      ListedIsOrder(tasks);
      DisjointWritesSerialize(tasks, s, schedule, order);
    }
  }

  lemma ListedIsOrder(tasks: seq<Task>)
    ensures Order(tasks, ListedOrder(tasks, |tasks|))
  { }

  /**
   The exact condition: calls that write no byte in common always end as in a serial order, from every file
   and under every schedule, if and only if they write no 16-byte block in common.
   */
  lemma AlwaysSerialIffDisjoint(tasks: seq<Task>, length: nat)
    requires TasksFit(tasks, length) && VolumesFit(tasks) && BytesDisjoint(tasks)
    ensures AlwaysSerial(tasks, length) <==> Disjoint(tasks)
  {
    hide TasksFit, VolumesFit, BytesDisjoint, AlwaysSerial, Writes;
    if Disjoint(tasks) {
      DisjointSuffices(tasks, length);
    } else {
      var t, u, a: nat :| 0 <= t < |tasks| && 0 <= u < |tasks| && Writes(tasks[t], a) && Writes(tasks[u], a) && t != u;
      SharingFails(tasks, length, t, u, a);
    }
  }
}
