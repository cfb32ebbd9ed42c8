/**
 Several calls of nand_read and nand_write at once on one shared stream: every step between two locks is
 a step of its own, and a schedule says which call moves next.
 */
module Concurrency {
  import opened Bytes
  import opened BlockCipher
  import opened Xtsn
  import opened PlainView
  import opened ReadLoop
  import Division

  datatype Option<T> = None | Some(value: T)

  /** A partition inside the file behind the stream. */
  datatype Volume = Volume(start: nat, size: nat, encrypted: bool, keys: Keys)

  /** A call, with its size clamped. */
  datatype Task =
    | WriteTask(vol: Volume, offset: nat, data: seq<byte>)
    | ReadTask(vol: Volume, offset: nat, size: nat)

  function Length(task: Task): nat {
    if task.WriteTask? then |task.data| else task.size
  }

  datatype Phase = Reading | Writing

  /** Before the lock, under it, after fseek, after fread or fwrite. */
  datatype Pc = Free | Locked | Sought | Moved

  /** The local variables of a call; `done` is `read` or `written`, `out` what a read has copied out. */
  datatype Thread =
    | Idle
    | Active(phase: Phase, pc: Pc, at: nat, sectorOffset: nat, skip: nat, done: nat, buf: seq<byte>, out: seq<byte>)
    | Done(out: seq<byte>)

  datatype State = State(data: seq<byte>, pos: nat, holder: Option<nat>, threads: seq<Thread>)

  // ---- the steps ----

  ghost predicate TaskOk(task: Task, length: nat) {
    var v := task.vol;
    && v.start % BLOCK_LEN == 0 && v.size % BLOCK_LEN == 0 && v.start + v.size <= length < OFFSET_LIMIT
    && Inverse(v.keys.crypt)
    && 0 < Length(task) && task.offset + Length(task) <= v.size
    && (task.ReadTask? ==> Chunked(task.offset, task.size))
  }

  /** The local bookkeeping of a call under way. */
  ghost predicate ThreadOk(task: Task, th: Thread) {
    match th
    case Idle => true
    case Done(out) => |out| == if task.ReadTask? then task.size else 0
    case Active(phase, pc, at, sectorOffset, skip, done, buf, out) =>
      && done < Length(task) && at + skip == task.offset + done
      && at % BLOCK_LEN == 0 && skip < BLOCK_LEN && sectorOffset == at % SECTOR_SIZE + skip
      && (task.ReadTask? ==> phase.Reading? && |out| == done && InStep(at, sectorOffset, skip, task.size - done))
      && (task.WriteTask? ==> out == [] && (done > 0 ==> skip == 0))
      && (phase.Writing? ==> |buf| == BLOCK_LEN)
      && (phase.Reading? && pc.Moved? ==> |buf| == Take(task, done))
  }

  /** How many bytes one turn reads. */
  function Take(task: Task, done: nat): nat
    requires done < Length(task)
  {
    if task.WriteTask? then BLOCK_LEN
    else if READ_SIZE > task.size - done then task.size - done else READ_SIZE
  }

  /** How many bytes of the buffer one turn moves on. */
  function Copied(task: Task, done: nat, skip: nat): nat
    requires done < Length(task) && skip < BLOCK_LEN
  {
    if task.ReadTask? then CopySize(task.size - done, Take(task, done), skip)
    else if |task.data| - done > BLOCK_LEN - skip then BLOCK_LEN - skip else |task.data| - done
  }

  /** One turn stays inside the partition, and the next one finds its variables in order. */
  lemma TurnFits(task: Task, th: Thread, length: nat)
    requires TaskOk(task, length) && th.Active? && ThreadOk(task, th)
    ensures var copied := Copied(task, th.done, th.skip);
            && th.at + Take(task, th.done) <= task.vol.size && th.at < OFFSET_LIMIT && th.sectorOffset < SECTOR_SIZE
            && th.skip + copied <= Take(task, th.done) && 0 < copied <= Length(task) - th.done
            && (th.done + copied < Length(task) ==>
                 && th.at + Take(task, th.done) == task.offset + th.done + copied
                 && NextInStep(task, th.at + Take(task, th.done), NextSectorOffset(th.sectorOffset, copied),
                               th.done + copied))
  {
    hide NextSectorOffset;
    var copied := Copied(task, th.done, th.skip);
    if task.ReadTask? {
      ChunkFits(th.at, th.sectorOffset, th.skip, task.size - th.done, Take(task, th.done), copied);
    } else {
      BlockInside(th.at, th.skip, task.vol.size);
      Division.AddBlocks(th.at, BLOCK_LEN);
      NextOffset(th.at, th.sectorOffset, th.skip, BLOCK_LEN);
    }
  }

  ghost predicate NextInStep(task: Task, at: nat, sectorOffset: nat, done: nat) {
    && at % BLOCK_LEN == 0 && sectorOffset == at % SECTOR_SIZE
    && (task.ReadTask? && done < task.size ==> InStep(at, sectorOffset, 0, task.size - done))
  }

  ghost predicate InSection(th: Thread) {
    th.Active? && !th.pc.Free?
  }

  ghost predicate Fine(tasks: seq<Task>, s: State) {
    && |s.threads| == |tasks|
    && (forall t :: 0 <= t < |tasks| ==> TaskOk(tasks[t], |s.data|) && ThreadOk(tasks[t], s.threads[t]))
    && (forall t :: 0 <= t < |tasks| ==> (InSection(s.threads[t]) <==> s.holder == Some(t)))
    && (forall t :: 0 <= t < |tasks| && s.threads[t].Active? && s.threads[t].pc.Sought? ==>
      s.pos == tasks[t].vol.start + s.threads[t].at)
    && (s.holder.Some? ==> s.holder.value < |tasks|)
  }

  function Begin(task: Task): Thread {
    Active(Reading, Free, task.offset - task.offset % BLOCK_LEN, task.offset % SECTOR_SIZE, task.offset % BLOCK_LEN,
           0, [], [])
  }

  /** The block a write stores: the bytes read, decrypted, with its own merged in, encrypted. */
  function Merged(task: Task, th: Thread): (y: Block)
    requires task.WriteTask? && th.Active? && ThreadOk(task, th) && |th.buf| == BLOCK_LEN
    requires th.at < OFFSET_LIMIT
  {
    var v := task.vol;
    var x := Decrypted(v.encrypted, v.keys, th.at, th.at % SECTOR_SIZE, th.buf);
    var copied := Copied(task, th.done, th.skip);
    var m := Put(x, th.skip, task.data[th.done..th.done + copied]);
    if v.encrypted
    then Process(true, v.keys.crypt, v.keys.tweak, 0, th.at / SECTOR_SIZE, SECTOR_SIZE, th.sectorOffset, m)
    else m
  }

  /** What a read copies out of its buffer. */
  function Chunk(task: Task, th: Thread, length: nat): seq<byte>
    requires TaskOk(task, length) && task.ReadTask? && th.Active? && th.pc.Moved? && ThreadOk(task, th)
  {
    TurnFits(task, th, length);
    var copied := Copied(task, th.done, th.skip);
    Decrypted(task.vol.encrypted, task.vol.keys, th.at, th.sectorOffset, th.buf)[th.skip..th.skip + copied]
  }

  /** The local work after an unlock, up to the next lock. */
  function Unlocked(task: Task, th: Thread, length: nat): Thread
    requires TaskOk(task, length) && th.Active? && th.pc.Moved? && ThreadOk(task, th)
  {
    TurnFits(task, th, length);
    if task.WriteTask? && th.phase.Reading? then th.(phase := Writing, pc := Free, buf := Merged(task, th))
    else
      var copied := Copied(task, th.done, th.skip);
      var out := if task.ReadTask? then th.out + Chunk(task, th, length) else [];
      if th.done + copied < Length(task) then
        Active(Reading, Free, th.at + Take(task, th.done), NextSectorOffset(th.sectorOffset, copied), 0,
               th.done + copied, [], out)
      else Done(out)
  }

  /** Call `t` moves on by one step; a call waiting for the lock or finished stays where it is. */
  function Step(tasks: seq<Task>, s: State, t: nat): State
    requires Fine(tasks, s)
  {
    if t >= |tasks| then s
    else
      var task, th := tasks[t], s.threads[t];
      match th
      case Idle => s.(threads := s.threads[t := Begin(task)])
      case Done(_) => s
      case Active(phase, pc, at, _, _, done, buf, _) =>
        TurnFits(task, th, |s.data|);
        match pc
        case Free =>
          if s.holder.Some? then s else s.(holder := Some(t), threads := s.threads[t := th.(pc := Locked)])
        case Locked => s.(pos := task.vol.start + at, threads := s.threads[t := th.(pc := Sought)])
        case Sought =>
          if phase.Reading? then
            var n := Take(task, done);
            s.(pos := s.pos + n, threads := s.threads[t := th.(pc := Moved, buf := s.data[s.pos..s.pos + n])])
          else
            s.(data := Put(s.data, s.pos, buf), pos := s.pos + |buf|, threads := s.threads[t := th.(pc := Moved)])
        case Moved => s.(holder := None, threads := s.threads[t := Unlocked(task, th, |s.data|)])
  }

  lemma BeginOk(task: Task, length: nat)
    requires TaskOk(task, length)
    ensures ThreadOk(task, Begin(task)) && !InSection(Begin(task))
  {
    BlockSplit(task.offset);
  }

  lemma UnlockedOk(task: Task, th: Thread, length: nat)
    requires TaskOk(task, length) && th.Active? && th.pc.Moved? && ThreadOk(task, th)
    ensures ThreadOk(task, Unlocked(task, th, length)) && !InSection(Unlocked(task, th, length))
  {
    hide Decrypted, Process, Put, NextSectorOffset, InStep, Chunked, CopySize;
    TurnFits(task, th, length);
  }

  /** The lock before and after a step of call `t`. */
  predicate Handover(before: Option<nat>, after: Option<nat>, t: nat) {
    after == before || (before.None? && after == Some(t)) || (before == Some(t) && after.None?)
  }

  /** One call's variables and at most its hold on the lock changed; it moved the position only under the lock. */
  lemma OneThreadMoved(tasks: seq<Task>, s: State, t: nat, th: Thread, r: State)
    requires Fine(tasks, s) && t < |tasks| && ThreadOk(tasks[t], th)
    requires r.threads == s.threads[t := th] && |r.data| == |s.data|
    requires Handover(s.holder, r.holder, t) && (InSection(th) <==> r.holder == Some(t))
    requires r.pos == s.pos || s.holder == Some(t)
    requires th.Active? && th.pc.Sought? ==> r.pos == tasks[t].vol.start + th.at
    ensures Fine(tasks, r)
  {
    hide TaskOk, ThreadOk;
  }

  /** Every step keeps the lock exclusive, the position where its holder put it, and all local variables in order. */
  lemma StepFine(tasks: seq<Task>, s: State, t: nat)
    requires Fine(tasks, s)
    ensures Fine(tasks, Step(tasks, s, t)) && |Step(tasks, s, t).data| == |s.data|
  {
    hide Unlocked, Begin, InStep, Chunked, Inverse;
    if t < |tasks| && !s.threads[t].Done? {
      var task, th := tasks[t], s.threads[t];
      var r := Step(tasks, s, t);
      if th.Idle? {
        BeginOk(task, |s.data|);
      } else {
        TurnFits(task, th, |s.data|);
        if th.pc.Moved? {
          UnlockedOk(task, th, |s.data|);
        }
      }
      OneThreadMoved(tasks, s, t, r.threads[t], r);
    }
  }

  /** The state after a schedule: any interleaving is one. */
  function After(tasks: seq<Task>, s: State, schedule: seq<nat>): (r: State)
    requires Fine(tasks, s)
    ensures Fine(tasks, r) && |r.data| == |s.data| && |r.threads| == |tasks|
  {
    if schedule == [] then s
    else
      var last := |schedule| - 1;
      var before := After(tasks, s, schedule[..last]);
      StepFine(tasks, before, schedule[last]);
      Step(tasks, before, schedule[last])
  }

  /** Nothing begun yet. */
  ghost predicate Initial(tasks: seq<Task>, s: State) {
    Fine(tasks, s) && forall t :: 0 <= t < |tasks| ==> s.threads[t].Idle?
  }

  ghost predicate AllDone(s: State) {
    forall t :: 0 <= t < |s.threads| ==> s.threads[t].Done?
  }

  /** No deadlock: until every call is done, some call has a step to take. */
  lemma NeverStuck(tasks: seq<Task>, s: State)
    requires Fine(tasks, s) && !AllDone(s)
    ensures exists t: nat :: t < |tasks| && Step(tasks, s, t) != s
  {
    var t: nat :| t < |tasks| && !s.threads[t].Done?;
    var u := if s.holder.Some? then s.holder.value else t;
    assert u < |tasks| && (s.holder.Some? ==> InSection(s.threads[u]));
    assert Step(tasks, s, u) != s by {
      assert Step(tasks, s, u).threads[u] != s.threads[u];
    }
  }

  /** A bound on the steps a call has left. */
  function Left(task: Task, th: Thread): nat {
    match th
    case Idle => 8 * Length(task) + 1
    case Done(_) => 0
    case Active(phase, pc, _, _, _, done, _, _) =>
      8 * (if done < Length(task) then Length(task) - done - 1 else 0)
      + (if phase.Reading? then 4 else 0) + (match pc case Free => 4 case Locked => 3 case Sought => 2 case Moved => 1)
  }

  function AllLeft(tasks: seq<Task>, threads: seq<Thread>): nat
    requires |tasks| == |threads|
  {
    if tasks == [] then 0 else Left(tasks[0], threads[0]) + AllLeft(tasks[1..], threads[1..])
  }

  lemma StepCounts(tasks: seq<Task>, s: State, t: nat)
    requires Fine(tasks, s) && t < |tasks| && Step(tasks, s, t) != s
    ensures var r := Step(tasks, s, t);
            && |r.threads| == |tasks| && r.threads == s.threads[t := r.threads[t]]
            && Left(tasks[t], r.threads[t]) < Left(tasks[t], s.threads[t])
  {
    hide Inverse, Chunked, InStep, Merged, Chunk, Put;
    TurnCounts(tasks[t], s.threads[t], |s.data|);
  }

  lemma TurnCounts(task: Task, th: Thread, length: nat)
    requires TaskOk(task, length) && ThreadOk(task, th)
    ensures th.Idle? ==> Left(task, Begin(task)) < Left(task, th)
    ensures th.Active? && th.pc.Moved? ==> Left(task, Unlocked(task, th, length)) < Left(task, th)
  {
    hide Inverse, Chunked, InStep, Merged, Chunk, NextSectorOffset;
    if th.Active? {
      TurnFits(task, th, length);
    }
  }

  lemma {:induction false} LeftAfterOne(tasks: seq<Task>, threads: seq<Thread>, t: nat, th: Thread)
    requires |tasks| == |threads| && t < |tasks|
    ensures AllLeft(tasks, threads[t := th])
         == AllLeft(tasks, threads) - Left(tasks[t], threads[t]) + Left(tasks[t], th)
  {
    hide Left;
    var next := threads[t := th];
    if t == 0 {
      assert next[1..] == threads[1..];
    } else {
      assert next[1..] == threads[1..][t - 1 := th] && next[0] == threads[0];
      LeftAfterOne(tasks[1..], threads[1..], t - 1, th);
    }
  }

  /** Every step of the schedule moves its call. */
  ghost predicate Moving(tasks: seq<Task>, s: State, schedule: seq<nat>)
    requires Fine(tasks, s)
  {
    schedule == [] ||
    var last := |schedule| - 1;
    var before := After(tasks, s, schedule[..last]);
    Moving(tasks, s, schedule[..last]) && schedule[last] < |tasks| && Step(tasks, before, schedule[last]) != before
  }

  /** Termination: no run has more steps than its calls had left, so one that cannot go on has done them all. */
  lemma {:induction false} RunsEnd(tasks: seq<Task>, s: State, schedule: seq<nat>)
    requires Fine(tasks, s) && Moving(tasks, s, schedule)
    ensures |schedule| + AllLeft(tasks, After(tasks, s, schedule).threads) <= AllLeft(tasks, s.threads)
    decreases |schedule|
  {
    hide Fine, Step, Left, AllLeft;
    if schedule != [] {
      var last := |schedule| - 1;
      var before := After(tasks, s, schedule[..last]);
      RunsEnd(tasks, s, schedule[..last]);
      StepCounts(tasks, before, schedule[last]);
      LeftAfterOne(tasks, before.threads, schedule[last], Step(tasks, before, schedule[last]).threads[schedule[last]]);
    }
  }

  // ---- writes that share no block ----

  /** Block `a` of the file, counted from the start of the file, holds bytes the call writes. */
  predicate Writes(task: Task, a: nat) {
    task.WriteTask? && Covers(task.vol.start + task.offset, |task.data|, a)
  }

  ghost predicate Disjoint(tasks: seq<Task>) {
    forall t, u, a: nat :: 0 <= t < |tasks| && 0 <= u < |tasks| && Writes(tasks[t], a) && Writes(tasks[u], a) ==> t == u
  }

  /** The bytes of `data` that fall on the block at `at`, laid over it. */
  function Overlay(offset: nat, data: seq<byte>, at: nat, x: Block): Block {
    seq(BLOCK_LEN, i requires 0 <= i < BLOCK_LEN =>
      if offset <= at + i < offset + |data| then data[at + i - offset] else x[i])
  }

  /** What the call makes of block `a` of the file. */
  function NewBlock(task: Task, a: nat, x: Block): Block
    requires task.WriteTask?
  {
    var v := task.vol;
    var b := if BLOCK_LEN * a < v.start then 0 else a - v.start / BLOCK_LEN;
    StoredBlock(v.encrypted, v.keys, b,
                Overlay(task.offset, task.data, BLOCK_LEN * b, ViewBlock(v.encrypted, v.keys, b, x)))
  }

  /** The call is past storing block `a`, if it is one of its own. */
  predicate StoredYet(task: Task, th: Thread, a: nat) {
    match th
    case Idle => false
    case Done(_) => true
    case Active(phase, pc, at, _, _, _, _, _) =>
      || BLOCK_LEN * a < task.vol.start + at
      || (phase.Writing? && pc.Moved? && BLOCK_LEN * a == task.vol.start + at)
  }

  /** The call that writes block `a`. */
  ghost function Writer(tasks: seq<Task>, a: nat): (t: int)
    ensures t == -1 || (0 <= t < |tasks| && Writes(tasks[t], a))
    ensures t == -1 ==> forall u :: 0 <= u < |tasks| ==> !Writes(tasks[u], a)
  {
    if t: nat :| t < |tasks| && Writes(tasks[t], a) then t else -1
  }

  /** Block `a` as it must be: rewritten once its writer stored it, else as at the start. */
  ghost function Expected(tasks: seq<Task>, start: seq<byte>, threads: seq<Thread>, a: nat): Block
    requires |threads| == |tasks| && BLOCK_LEN * (a + 1) <= |start|
  {
    var t := Writer(tasks, a);
    if t >= 0 && StoredYet(tasks[t], threads[t], a) then NewBlock(tasks[t], a, BlockAt(start, a)) else BlockAt(start, a)
  }

  ghost predicate BlocksOk(tasks: seq<Task>, start: seq<byte>, s: State) {
    && |s.data| == |start| && |s.threads| == |tasks|
    && (forall a: nat :: BLOCK_LEN * (a + 1) <= |start| ==>
      BlockAt(s.data, a) == Expected(tasks, start, s.threads, a))
    && s.data[BLOCK_LEN * (|start| / BLOCK_LEN)..] == start[BLOCK_LEN * (|start| / BLOCK_LEN)..]
  }

  /** The block buffer of a write holds the block as at the start, then the new one. */
  ghost predicate BufOk(task: Task, th: Thread, start: seq<byte>) {
    task.WriteTask? && th.Active? ==>
      var a := (task.vol.start + th.at) / BLOCK_LEN;
      && BLOCK_LEN * (a + 1) <= |start|
      && (th.phase.Reading? && th.pc.Moved? ==> th.buf == BlockAt(start, a))
      && (th.phase.Writing? ==> th.buf == NewBlock(task, a, BlockAt(start, a)))
  }

  ghost predicate WritesOk(tasks: seq<Task>, start: seq<byte>, s: State) {
    BlocksOk(tasks, start, s) && forall t :: 0 <= t < |tasks| ==> BufOk(tasks[t], s.threads[t], start)
  }

  /** The loop body of nand_write computes the new block from the stored one. */
  lemma MergedIsNew(task: Task, th: Thread, length: nat, a: nat)
    requires TaskOk(task, length) && task.WriteTask? && th.Active? && ThreadOk(task, th)
    requires |th.buf| == BLOCK_LEN && BLOCK_LEN * a == task.vol.start + th.at
    ensures th.at < OFFSET_LIMIT && Merged(task, th) == NewBlock(task, a, th.buf)
  {
    hide Process, PlainBlock, SealedBlock, Inverse, Put, Overlay;
    TurnFits(task, th, length);
    var v, at := task.vol, th.at;
    var b := a - v.start / BLOCK_LEN;
    assert at == BLOCK_LEN * b;
    var x := ViewBlock(v.encrypted, v.keys, b, th.buf);
    SameBlockOffset(at, th.sectorOffset, th.skip);
    SameBlockOffset(at, at % SECTOR_SIZE, 0);
    OneBlockProcessed(false, v.keys, at, th.buf, at % SECTOR_SIZE);
    var copied := Copied(task, th.done, th.skip);
    OverlayIsPut(task.offset, task.data, at, th.skip, th.done, copied, x);
    OneBlockProcessed(true, v.keys, at, Overlay(task.offset, task.data, at, x), th.sectorOffset);
  }

  lemma OverlayIsPut(offset: nat, data: seq<byte>, at: nat, skip: nat, done: nat, copied: nat, x: Block)
    requires skip < BLOCK_LEN && at + skip == offset + done && (done > 0 ==> skip == 0) && done < |data|
    requires copied == if |data| - done > BLOCK_LEN - skip then BLOCK_LEN - skip else |data| - done
    ensures Put(x, skip, data[done..done + copied]) == Overlay(offset, data, at, x)
  { }

  /** The block a write works on is one of its own, and not stored yet. */
  lemma OwnBlock(task: Task, th: Thread, length: nat)
    requires TaskOk(task, length) && task.WriteTask? && th.Active? && ThreadOk(task, th)
    ensures var a := (task.vol.start + th.at) / BLOCK_LEN;
            && BLOCK_LEN * a == task.vol.start + th.at && BLOCK_LEN * (a + 1) <= length && Writes(task, a)
            && (!(th.phase.Writing? && th.pc.Moved?) ==> !StoredYet(task, th, a))
  {
    TurnFits(task, th, length);
  }

  /** Only the step that writes the file changes which blocks a call has stored. */
  lemma SameStored(task: Task, th: Thread, length: nat, a: nat)
    requires TaskOk(task, length) && Writes(task, a) && ThreadOk(task, th)
    ensures th.Idle? ==> !StoredYet(task, Begin(task), a)
    ensures th.Active? && th.pc.Moved? ==> StoredYet(task, Unlocked(task, th, length), a) == StoredYet(task, th, a)
  {
    hide Merged, NextSectorOffset, Inverse;
    if th.Active? && th.pc.Moved? {
      TurnFits(task, th, length);
      EndsInBlock(task.vol.start, th.at, th.skip, Copied(task, th.done, th.skip), a);
    } else {
      AtOrAfter(task.vol.start, task.offset, a);
    }
  }

  lemma EndsInBlock(start: nat, at: nat, skip: nat, copied: nat, a: nat)
    requires start % BLOCK_LEN == 0 && at % BLOCK_LEN == 0 && skip + copied <= BLOCK_LEN
    ensures BLOCK_LEN * a < start + at + BLOCK_LEN <==> BLOCK_LEN * a <= start + at
    ensures BLOCK_LEN * a < start + at + skip + copied ==> BLOCK_LEN * a <= start + at
  { }

  lemma AtOrAfter(start: nat, offset: nat, a: nat)
    requires start % BLOCK_LEN == 0 && start + offset < BLOCK_LEN * (a + 1)
    ensures start + (offset - offset % BLOCK_LEN) <= BLOCK_LEN * a
  { }

  /** The step of fwrite, and every other one. */
  predicate StoresBlock(th: Thread) {
    th.Active? && th.phase.Writing? && th.pc.Sought?
  }

  /** A step other than fwrite leaves the file alone and what is expected of it. */
  lemma QuietStep(tasks: seq<Task>, start: seq<byte>, s: State, t: nat)
    requires Fine(tasks, s) && BlocksOk(tasks, start, s) && t < |tasks| && !StoresBlock(s.threads[t])
    ensures BlocksOk(tasks, start, Step(tasks, s, t))
  {
    hide Unlocked, Begin, Inverse, NewBlock, BlockAt, Chunked, InStep, Writes;
    var r := Step(tasks, s, t);
    assert r.data == s.data && |r.threads| == |s.threads|;
    forall a: nat | BLOCK_LEN * (a + 1) <= |start|
      ensures Expected(tasks, start, r.threads, a) == Expected(tasks, start, s.threads, a)
    {
      if Writer(tasks, a) == t {
        SameStored(tasks[t], s.threads[t], |s.data|, a);
      }
    }
  }

  /** fwrite replaces one block: the expected one by the new one. */
  lemma StoringStep(tasks: seq<Task>, start: seq<byte>, s: State, t: nat)
    requires Fine(tasks, s) && WritesOk(tasks, start, s) && Disjoint(tasks)
    requires t < |tasks| && StoresBlock(s.threads[t])
    ensures BlocksOk(tasks, start, Step(tasks, s, t))
  {
    hide Inverse, NewBlock, BlockAt, Chunked, InStep, Writes, Put, TaskOk;
    var task, th, r := tasks[t], s.threads[t], Step(tasks, s, t);
    var own := (task.vol.start + th.at) / BLOCK_LEN;
    OwnBlock(task, th, |s.data|);
    assert Writer(tasks, own) == t;
    assert BufOk(task, th, start);
    assert r.data == Put(s.data, BLOCK_LEN * own, th.buf);
    forall a: nat | BLOCK_LEN * (a + 1) <= |start|
      ensures BlockAt(r.data, a) == Expected(tasks, start, r.threads, a)
    {
      BlockOfPut(s.data, own, th.buf, a);
    }
    TailOfPut(s.data, own, th.buf);
  }

  lemma TailOfPut(s: seq<byte>, at: nat, x: Block)
    requires BLOCK_LEN * (at + 1) <= |s|
    ensures var n := BLOCK_LEN * (|s| / BLOCK_LEN); Put(s, BLOCK_LEN * at, x)[n..] == s[n..]
  { }

  lemma BufStep(tasks: seq<Task>, start: seq<byte>, s: State, t: nat)
    requires Fine(tasks, s) && WritesOk(tasks, start, s) && Disjoint(tasks)
    requires t < |tasks|
    ensures BufOk(tasks[t], Step(tasks, s, t).threads[t], start)
  {
    hide Inverse, NewBlock, Chunked, InStep, Put, Merged, NextSectorOffset, Writes, TaskOk;
    var task, th := tasks[t], s.threads[t];
    var r := Step(tasks, s, t).threads[t];
    if task.WriteTask? && r.Active? {
      ThreadStaysOk(tasks, s, t);
      OwnBlock(task, r, |s.data|);
      if th.Active? {
        OwnBlock(task, th, |s.data|);
        if th.phase.Reading? && th.pc.Sought? {
          FetchesOwnBlock(tasks, start, s, t);
        } else if th.phase.Reading? && th.pc.Moved? {
          MergedIsNew(task, th, |s.data|, (task.vol.start + th.at) / BLOCK_LEN);
        }
      }
    }
  }

  lemma ThreadStaysOk(tasks: seq<Task>, s: State, t: nat)
    requires Fine(tasks, s) && t < |tasks|
    ensures |Step(tasks, s, t).threads| == |tasks| && ThreadOk(tasks[t], Step(tasks, s, t).threads[t])
  {
    hide Step, TaskOk, ThreadOk;
    StepFine(tasks, s, t);
  }

  /** What a write reads of the block it works on is the block as at the start. */
  lemma FetchesOwnBlock(tasks: seq<Task>, start: seq<byte>, s: State, t: nat)
    requires Fine(tasks, s) && BlocksOk(tasks, start, s) && Disjoint(tasks) && t < |tasks| && tasks[t].WriteTask?
    requires var th := s.threads[t]; th.Active? && th.phase.Reading? && th.pc.Sought?
    ensures var a := (tasks[t].vol.start + s.threads[t].at) / BLOCK_LEN;
            && BLOCK_LEN * (a + 1) <= |start|
            && s.pos == BLOCK_LEN * a && s.data[s.pos..s.pos + BLOCK_LEN] == BlockAt(start, a)
  {
    hide Inverse, NewBlock, Writes, TaskOk, InStep;
    var task, th := tasks[t], s.threads[t];
    OwnBlock(task, th, |s.data|);
    var a := (task.vol.start + th.at) / BLOCK_LEN;
    assert Writer(tasks, a) == t;
    assert s.data[s.pos..s.pos + BLOCK_LEN] == BlockAt(s.data, a);
  }

  lemma WritesStep(tasks: seq<Task>, start: seq<byte>, s: State, t: nat)
    requires Fine(tasks, s) && WritesOk(tasks, start, s) && Disjoint(tasks)
    ensures WritesOk(tasks, start, Step(tasks, s, t))
  {
    if t < |tasks| {
      if StoresBlock(s.threads[t]) {
        StoringStep(tasks, start, s, t);
      } else {
        QuietStep(tasks, start, s, t);
      }
      BufStep(tasks, start, s, t);
      OthersStay(tasks, s, t);
      hide Step, BlocksOk, BufOk, Fine;
    }
  }

  lemma OthersStay(tasks: seq<Task>, s: State, t: nat)
    requires Fine(tasks, s) && t < |tasks|
    ensures var r := Step(tasks, s, t);
            |r.threads| == |tasks| && forall u :: 0 <= u < |tasks| && u != t ==> r.threads[u] == s.threads[u]
  { }

  lemma WritesBegin(tasks: seq<Task>, s: State)
    requires Initial(tasks, s)
    ensures WritesOk(tasks, s.data, s)
  {
    hide NewBlock, Writes, TaskOk;
  }

  lemma {:induction false} WritesRun(tasks: seq<Task>, s: State, schedule: seq<nat>)
    requires Initial(tasks, s) && Disjoint(tasks)
    ensures WritesOk(tasks, s.data, After(tasks, s, schedule))
  {
    hide Step, Fine;
    if schedule == [] {
      WritesBegin(tasks, s);
    } else {
      var last := |schedule| - 1;
      WritesRun(tasks, s, schedule[..last]);
      WritesStep(tasks, s.data, After(tasks, s, schedule[..last]), schedule[last]);
    }
  }

  // ---- the same writes one after another ----

  function Region(v: Volume, data: seq<byte>): (raw: seq<byte>)
    requires v.start + v.size <= |data|
    ensures |raw| == v.size
  {
    data[v.start..v.start + v.size]
  }

  /** The file after a write that ran alone. */
  function FileAfter(task: Task, data: seq<byte>): (r: seq<byte>)
    requires task.WriteTask? && TaskOk(task, |data|)
    ensures |r| == |data|
  {
    var v := task.vol;
    Put(data, v.start, Stored(v.encrypted, v.keys, Region(v, data), task.offset, task.data))
  }

  /** Every write once, in some order. */
  ghost predicate Order(tasks: seq<Task>, order: seq<nat>) {
    && (forall i, j :: 0 <= i < j < |order| ==> order[i] != order[j])
    && (forall t: nat :: t in order <==> t < |tasks| && tasks[t].WriteTask?)
  }

  ghost predicate Writers(tasks: seq<Task>, order: seq<nat>, length: nat) {
    forall i :: 0 <= i < |order| ==>
      order[i] < |tasks| && tasks[order[i]].WriteTask? && TaskOk(tasks[order[i]], length)
  }

  ghost function Serial(tasks: seq<Task>, order: seq<nat>, data: seq<byte>): (r: seq<byte>)
    requires Writers(tasks, order, |data|)
    ensures |r| == |data|
  {
    if order == [] then data
    else
      var last := |order| - 1;
      FileAfter(tasks[order[last]], Serial(tasks, order[..last], data))
  }

  /** A block inside the partition, counted from the start of the partition. */
  lemma BlockInVolume(v: Volume, a: nat, length: nat)
    requires v.start % BLOCK_LEN == 0 && v.size % BLOCK_LEN == 0 && v.start + v.size <= length
    requires v.start <= BLOCK_LEN * a && BLOCK_LEN * (a + 1) <= v.start + v.size
    ensures var b := a - v.start / BLOCK_LEN;
            && b >= 0 && BLOCK_LEN * (b + 1) <= v.size
            && forall o, n: nat :: Covers(v.start + o, n, a) == Covers(o, n, b)
  {
    assert v.start == BLOCK_LEN * (v.start / BLOCK_LEN);
  }

  lemma StoredInVolume(task: Task, raw: seq<byte>, b: nat, a: nat)
    requires task.WriteTask? && |raw| == task.vol.size && |raw| % BLOCK_LEN == 0
    requires task.offset + |task.data| <= |raw| && BLOCK_LEN * (b + 1) <= |raw|
    requires BLOCK_LEN * a >= task.vol.start && b == a - task.vol.start / BLOCK_LEN
    ensures var v := task.vol;
            BlockAt(Stored(v.encrypted, v.keys, raw, task.offset, task.data), b)
            == if Covers(task.offset, |task.data|, b) then NewBlock(task, a, BlockAt(raw, b)) else BlockAt(raw, b)
  {
    hide Stored, StoredBlock, ViewBlock, View, Overlay, Put;
    var v := task.vol;
    StoredAt(v.encrypted, v.keys, raw, task.offset, task.data, b);
    ViewAt(v.encrypted, v.keys, raw, b);
    PutIsOverlay(View(v.encrypted, v.keys, raw), task.offset, task.data, b);
  }

  lemma FileAfterBlock(task: Task, data: seq<byte>, a: nat)
    requires task.WriteTask? && TaskOk(task, |data|) && BLOCK_LEN * (a + 1) <= |data|
    ensures BlockAt(FileAfter(task, data), a)
         == if Writes(task, a) then NewBlock(task, a, BlockAt(data, a)) else BlockAt(data, a)
  {
    hide Inverse, Stored, NewBlock, Put, BlockAt, Covers;
    var v := task.vol;
    var raw := Region(v, data);
    var next := Stored(v.encrypted, v.keys, raw, task.offset, task.data);
    if v.start <= BLOCK_LEN * a && BLOCK_LEN * (a + 1) <= v.start + v.size {
      BlockInVolume(v, a, |data|);
      StoredInVolume(task, raw, a - v.start / BLOCK_LEN, a);
      BlockInPiece(data, v.start, next, a);
      BlockInPiece(data, v.start, raw, a);
      PutSame(data, v.start, v.size);
    } else {
      BlockOutside(data, v.start, next, a);
      OutsideUncovered(v.start, v.size, task.offset, |task.data|, a);
    }
  }

  lemma OutsideUncovered(start: nat, size: nat, offset: nat, n: nat, a: nat)
    requires start % BLOCK_LEN == 0 && size % BLOCK_LEN == 0 && offset + n <= size
    requires !(start <= BLOCK_LEN * a && BLOCK_LEN * (a + 1) <= start + size)
    ensures !Covers(start + offset, n, a)
  { }

  lemma PutIsOverlay(p: seq<byte>, offset: nat, data: seq<byte>, b: nat)
    requires offset + |data| <= |p| && BLOCK_LEN * (b + 1) <= |p|
    ensures BlockAt(Put(p, offset, data), b) == Overlay(offset, data, BLOCK_LEN * b, BlockAt(p, b))
  { }

  lemma BlockInPiece(s: seq<byte>, at: nat, x: seq<byte>, a: nat)
    requires at % BLOCK_LEN == 0 && at + |x| <= |s| && at <= BLOCK_LEN * a && BLOCK_LEN * (a + 1) <= at + |x|
    ensures BlockAt(Put(s, at, x), a) == BlockAt(x, a - at / BLOCK_LEN)
  { }

  lemma BlockOutside(s: seq<byte>, at: nat, x: seq<byte>, a: nat)
    requires at % BLOCK_LEN == 0 && |x| % BLOCK_LEN == 0 && at + |x| <= |s| && BLOCK_LEN * (a + 1) <= |s|
    requires !(at <= BLOCK_LEN * a && BLOCK_LEN * (a + 1) <= at + |x|)
    ensures BlockAt(Put(s, at, x), a) == BlockAt(s, a)
  { }

  lemma FileAfterTail(task: Task, data: seq<byte>)
    requires task.WriteTask? && TaskOk(task, |data|)
    ensures var n := BLOCK_LEN * (|data| / BLOCK_LEN); FileAfter(task, data)[n..] == data[n..]
  {
    hide Stored, Inverse;
    var v, n := task.vol, BLOCK_LEN * (|data| / BLOCK_LEN);
    assert v.start + v.size <= n;
  }

  /** After writes in turn, each block is the new one of its writer. */
  lemma {:induction false} SerialBlock(tasks: seq<Task>, order: seq<nat>, data: seq<byte>, a: nat)
    requires Writers(tasks, order, |data|) && Disjoint(tasks) && BLOCK_LEN * (a + 1) <= |data|
    requires forall i, j :: 0 <= i < j < |order| ==> order[i] != order[j]
    ensures var t := Writer(tasks, a);
            BlockAt(Serial(tasks, order, data), a)
            == if t >= 0 && t in order then NewBlock(tasks[t], a, BlockAt(data, a)) else BlockAt(data, a)
  {
    hide TaskOk, BlockAt, NewBlock, FileAfter, Writes;
    if order != [] {
      var last := |order| - 1;
      var t := Writer(tasks, a);
      SerialBlock(tasks, order[..last], data, a);
      FileAfterBlock(tasks[order[last]], Serial(tasks, order[..last], data), a);
      assert order == order[..last] + [order[last]];
    }
  }

  lemma {:induction false} SerialTail(tasks: seq<Task>, order: seq<nat>, data: seq<byte>)
    requires Writers(tasks, order, |data|)
    ensures var n := BLOCK_LEN * (|data| / BLOCK_LEN); Serial(tasks, order, data)[n..] == data[n..]
  {
    hide TaskOk, FileAfter;
    if order != [] {
      var last := |order| - 1;
      SerialTail(tasks, order[..last], data);
      FileAfterTail(tasks[order[last]], Serial(tasks, order[..last], data));
    }
  }

  /**
   Whatever the schedule, and whatever reads run beside them, writes that share no block end in the file
   they end in one after another, in every order.
   */
  lemma DisjointWritesSerialize(tasks: seq<Task>, s: State, schedule: seq<nat>, order: seq<nat>)
    requires Initial(tasks, s) && Disjoint(tasks)
    requires AllDone(After(tasks, s, schedule)) && Order(tasks, order)
    ensures Writers(tasks, order, |s.data|)
    ensures After(tasks, s, schedule).data == Serial(tasks, order, s.data)
  {
    hide TaskOk, NewBlock, Step, Fine, Writes;
    var r := After(tasks, s, schedule);
    OrderWrites(tasks, s, order);
    WritesRun(tasks, s, schedule);
    var l, q := r.data, Serial(tasks, order, s.data);
    forall a: nat | BLOCK_LEN * (a + 1) <= |s.data| ensures BlockAt(l, a) == BlockAt(q, a) {
      SerialBlock(tasks, order, s.data, a);
      WriterWrites(tasks, a);
    }
    SerialTail(tasks, order, s.data);
    SameBlocksAndTail(l, q);
  }

  lemma OrderWrites(tasks: seq<Task>, s: State, order: seq<nat>)
    requires Fine(tasks, s) && Order(tasks, order)
    ensures Writers(tasks, order, |s.data|)
  {
    hide TaskOk, ThreadOk;
    forall i | 0 <= i < |order| ensures order[i] < |tasks| && tasks[order[i]].WriteTask? {
      assert order[i] in order;
    }
  }

  lemma WriterWrites(tasks: seq<Task>, a: nat)
    ensures Writer(tasks, a) >= 0 ==> tasks[Writer(tasks, a)].WriteTask?
  { }

  /** The writes to one partition in turn, on a plain byte array. */
  ghost function PlainSerial(v: Volume, tasks: seq<Task>, order: seq<nat>, p: seq<byte>): (r: seq<byte>)
    requires |p| == v.size
    requires forall i :: 0 <= i < |order| ==>
      order[i] < |tasks| && tasks[order[i]].WriteTask?
      && tasks[order[i]].offset + |tasks[order[i]].data| <= tasks[order[i]].vol.size
    ensures |r| == |p|
  {
    if order == [] then p
    else
      var last := |order| - 1;
      var before := PlainSerial(v, tasks, order[..last], p);
      var task := tasks[order[last]];
      if task.vol == v then Put(before, task.offset, task.data) else before
  }

  /** Every call is on this partition or on one that does not meet it. */
  ghost predicate Apart(v: Volume, tasks: seq<Task>) {
    forall t :: 0 <= t < |tasks| ==>
      var u := tasks[t].vol;
      u == v || u.start + u.size <= v.start || v.start + v.size <= u.start
  }

  lemma {:induction false} SerialView(v: Volume, tasks: seq<Task>, order: seq<nat>, data: seq<byte>)
    requires Writers(tasks, order, |data|) && Apart(v, tasks)
    requires v.start + v.size <= |data| && v.size % BLOCK_LEN == 0
    ensures View(v.encrypted, v.keys, Region(v, Serial(tasks, order, data)))
         == PlainSerial(v, tasks, order, View(v.encrypted, v.keys, Region(v, data)))
  {
    hide View, Inverse, Stored, Put, Chunked;
    if order != [] {
      var last := |order| - 1;
      SerialView(v, tasks, order[..last], data);
      var task, before := tasks[order[last]], Serial(tasks, order[..last], data);
      var u := task.vol;
      var next := Stored(u.encrypted, u.keys, Region(u, before), task.offset, task.data);
      if u == v {
        ViewOfStored(v.encrypted, v.keys, Region(v, before), task.offset, task.data);
        PutTwice(before, v.start, next, next);
      } else {
        DisjointPut(before, u.start, next, v.start, v.size);
      }
    }
  }

  /** The same in plaintext: every partition ends as its own writes in turn would leave a plain byte array. */
  lemma DisjointWritesPlain(v: Volume, tasks: seq<Task>, s: State, schedule: seq<nat>, order: seq<nat>)
    requires Initial(tasks, s) && Disjoint(tasks) && Apart(v, tasks)
    requires AllDone(After(tasks, s, schedule)) && Order(tasks, order)
    requires v.start + v.size <= |s.data| && v.size % BLOCK_LEN == 0
    ensures Writers(tasks, order, |s.data|)
    ensures View(v.encrypted, v.keys, Region(v, After(tasks, s, schedule).data))
         == PlainSerial(v, tasks, order, View(v.encrypted, v.keys, Region(v, s.data)))
  {
    hide View, Inverse, Chunked, Fine, After;
    DisjointWritesSerialize(tasks, s, schedule, order);
    SerialView(v, tasks, order, s.data);
  }

  // ---- reads beside writes ----

  /** The chunks of a read, counted from the start of the partition. */
  function Lo(task: Task, j: nat): nat
    requires task.ReadTask?
  {
    if j == 0 then task.offset else task.offset - task.offset % BLOCK_LEN + READ_SIZE * j
  }

  function Hi(task: Task, j: nat): nat
    requires task.ReadTask?
  {
    var end := task.offset - task.offset % BLOCK_LEN + READ_SIZE * (j + 1);
    if end > task.offset + task.size then task.offset + task.size else end
  }

  /** At one instant while the call was under way, chunk `j` of what it returns was the plaintext there. */
  ghost predicate SeenAt(tasks: seq<Task>, s: State, schedule: seq<nat>, t: nat, j: nat, out: seq<byte>, i: nat)
    requires Fine(tasks, s) && t < |tasks| && tasks[t].ReadTask?
  {
    var task := tasks[t];
    && i <= |schedule|
    && var moment := After(tasks, s, schedule[..i]);
    && moment.threads[t].Active?
    && task.offset <= Lo(task, j) <= Hi(task, j) <= task.offset + |out| && Hi(task, j) <= task.vol.size
    && out[Lo(task, j) - task.offset..Hi(task, j) - task.offset]
    == View(task.vol.encrypted, task.vol.keys, Region(task.vol, moment.data))[Lo(task, j)..Hi(task, j)]
  }

  /** No instant comes before one ahead of it. */
  predicate Ascending(instants: seq<nat>) {
    forall j, k :: 0 <= j <= k < |instants| ==> instants[j] <= instants[k]
  }

  predicate NotBefore(instants: seq<nat>, i: nat) {
    forall j :: 0 <= j < |instants| ==> instants[j] <= i
  }

  /** The first `|instants|` chunks, each as it was at its instant, in the order of the request. */
  ghost predicate SeenAlong(tasks: seq<Task>, s: State, schedule: seq<nat>, t: nat, out: seq<byte>, instants: seq<nat>)
    requires Fine(tasks, s) && t < |tasks| && tasks[t].ReadTask?
  {
    && Ascending(instants)
    && forall j: nat :: j < |instants| ==> SeenAt(tasks, s, schedule, t, j, out, instants[j])
  }

  /** The buffer of a read holds the ciphertext of its chunk at one instant. */
  ghost predicate Fetched(tasks: seq<Task>, s: State, schedule: seq<nat>, t: nat, at: nat, buf: seq<byte>, i: nat)
    requires Fine(tasks, s) && t < |tasks|
  {
    var task := tasks[t];
    && i <= |schedule|
    && var moment := After(tasks, s, schedule[..i]);
    && moment.threads[t].Active? && at + |buf| <= task.vol.size
    && buf == Region(task.vol, moment.data)[at..at + |buf|]
  }

  /** The call is about to fetch chunk `m`, or has it in its buffer. */
  predicate AtChunk(task: Task, th: Thread, m: nat)
    requires task.ReadTask? && th.Active?
  {
    && th.at == task.offset - task.offset % BLOCK_LEN + READ_SIZE * m
    && th.at + th.skip == Lo(task, m)
  }

  lemma AfterPrefix(tasks: seq<Task>, s: State, schedule: seq<nat>, next: nat, i: nat)
    requires Fine(tasks, s) && i <= |schedule|
    ensures After(tasks, s, (schedule + [next])[..i]) == After(tasks, s, schedule[..i])
    ensures After(tasks, s, schedule + [next]) == Step(tasks, After(tasks, s, schedule), next)
  {
    hide Step, Fine;
    assert (schedule + [next])[..i] == schedule[..i];
    assert (schedule + [next])[..|schedule|] == schedule;
  }

  /** What was seen stays seen when the run goes on and the call copies out more. */
  lemma SeenOn(tasks: seq<Task>, s: State, schedule: seq<nat>, next: nat, t: nat,
               out: seq<byte>, more: seq<byte>, instants: seq<nat>)
    requires Fine(tasks, s) && t < |tasks| && tasks[t].ReadTask? && SeenAlong(tasks, s, schedule, t, out, instants)
    ensures SeenAlong(tasks, s, schedule + [next], t, out + more, instants)
  {
    hide Fine, SeenAt, Ascending;
    forall j: nat | j < |instants| ensures SeenAt(tasks, s, schedule + [next], t, j, out + more, instants[j]) {
      ChunkSeenOn(tasks, s, schedule, next, t, j, out, more, instants[j]);
    }
  }

  lemma ChunkSeenOn(tasks: seq<Task>, s: State, schedule: seq<nat>, next: nat, t: nat, j: nat,
                    out: seq<byte>, more: seq<byte>, i: nat)
    requires Fine(tasks, s) && t < |tasks| && tasks[t].ReadTask? && SeenAt(tasks, s, schedule, t, j, out, i)
    ensures SeenAt(tasks, s, schedule + [next], t, j, out + more, i)
  {
    hide Fine, View, After;
    AfterPrefix(tasks, s, schedule, next, i);
    var a, b := Lo(tasks[t], j) - tasks[t].offset, Hi(tasks[t], j) - tasks[t].offset;
    assert (out + more)[a..b] == out[a..b];
  }

  lemma FetchedOn(tasks: seq<Task>, s: State, schedule: seq<nat>, next: nat, t: nat, at: nat, buf: seq<byte>, i: nat)
    requires Fine(tasks, s) && t < |tasks| && Fetched(tasks, s, schedule, t, at, buf, i)
    ensures Fetched(tasks, s, schedule + [next], t, at, buf, i)
  {
    hide Fine, After;
    AfterPrefix(tasks, s, schedule, next, i);
  }

  /** Where the chunk at hand lies. */
  lemma ChunkBounds(task: Task, th: Thread, length: nat, m: nat)
    requires task.ReadTask? && th.Active? && ThreadOk(task, th) && TaskOk(task, length) && AtChunk(task, th, m)
    ensures var copied := Copied(task, th.done, th.skip);
            && Lo(task, m) == task.offset + th.done && Hi(task, m) == task.offset + th.done + copied
            && Hi(task, m) <= task.vol.size
  {
    hide InStep, Chunked, Inverse;
    ChunkFits(th.at, th.sectorOffset, th.skip, task.size - th.done, Take(task, th.done),
              Copied(task, th.done, th.skip));
  }

  /** What a read decrypts of the ciphertext of its chunk and copies out is the plaintext there. */
  lemma ChunkIsSlice(task: Task, th: Thread, length: nat, raw: seq<byte>, m: nat)
    requires task.ReadTask? && th.Active? && th.pc.Moved? && ThreadOk(task, th) && TaskOk(task, length)
    requires AtChunk(task, th, m) && |raw| == task.vol.size && th.at + |th.buf| <= |raw|
    requires th.buf == raw[th.at..th.at + |th.buf|]
    ensures Lo(task, m) <= Hi(task, m) <= |raw|
    ensures Chunk(task, th, length) == View(task.vol.encrypted, task.vol.keys, raw)[Lo(task, m)..Hi(task, m)]
  {
    hide View, Decrypted, InStep, Chunked, Inverse, Lo, Hi, CopySize;
    var v, n, copied := task.vol, Take(task, th.done), Copied(task, th.done, th.skip);
    ChunkBounds(task, th, length, m);
    ChunkFits(th.at, th.sectorOffset, th.skip, task.size - th.done, n, copied);
    ChunkIsView(v.encrypted, v.keys, raw, th.at, th.sectorOffset, n);
    SliceOfSlice(View(v.encrypted, v.keys, raw), th.at, n, th.skip, th.skip + copied);
  }

  lemma ChunkSeen(tasks: seq<Task>, s: State, schedule: seq<nat>, t: nat, th: Thread, m: nat, i: nat)
    requires Fine(tasks, s) && t < |tasks| && tasks[t].ReadTask?
    requires th.Active? && th.pc.Moved? && ThreadOk(tasks[t], th) && TaskOk(tasks[t], |s.data|)
    requires AtChunk(tasks[t], th, m) && Fetched(tasks, s, schedule, t, th.at, th.buf, i)
    ensures SeenAt(tasks, s, schedule, t, m, th.out + Chunk(tasks[t], th, |s.data|), i)
  {
    hide Fine, After, View, Decrypted, InStep, Chunked, Inverse, Lo, Hi, CopySize, Take;
    var task := tasks[t];
    var chunk := Chunk(task, th, |s.data|);
    ChunkBounds(task, th, |s.data|, m);
    ChunkIsSlice(task, th, |s.data|, Region(task.vol, After(tasks, s, schedule[..i]).data), m);
    assert (th.out + chunk)[|th.out|..|th.out| + |chunk|] == chunk;
  }

  /** The chunk at hand was fetched no earlier than those before it. */
  ghost predicate FetchedLast(tasks: seq<Task>, s: State, schedule: seq<nat>, t: nat, th: Thread, instants: seq<nat>)
    requires Fine(tasks, s) && t < |tasks| && th.Active?
  {
    exists i :: Fetched(tasks, s, schedule, t, th.at, th.buf, i) && NotBefore(instants, i)
  }

  /** The read under way with a chunk copied out for each of the instants. */
  ghost predicate ReadAt(tasks: seq<Task>, s: State, schedule: seq<nat>, t: nat, th: Thread, instants: seq<nat>)
    requires Fine(tasks, s) && t < |tasks| && tasks[t].ReadTask? && th.Active?
  {
    && AtChunk(tasks[t], th, |instants|)
    && SeenAlong(tasks, s, schedule, t, th.out, instants)
    && (th.pc.Moved? ==> FetchedLast(tasks, s, schedule, t, th, instants))
  }

  /** The read that is done: one instant for every chunk of the request. */
  ghost predicate ReadDone(tasks: seq<Task>, s: State, schedule: seq<nat>, t: nat, out: seq<byte>, instants: seq<nat>)
    requires Fine(tasks, s) && t < |tasks| && tasks[t].ReadTask?
  {
    && SeenAlong(tasks, s, schedule, t, out, instants)
    && forall j: nat :: Lo(tasks[t], j) < tasks[t].offset + tasks[t].size ==> j < |instants|
  }

  ghost predicate ReadOk(tasks: seq<Task>, s: State, schedule: seq<nat>, t: nat)
    requires Fine(tasks, s) && t < |tasks| && tasks[t].ReadTask?
  {
    var th := After(tasks, s, schedule).threads[t];
    match th
    case Idle => true
    case Done(out) => exists instants :: ReadDone(tasks, s, schedule, t, out, instants)
    case Active(_, _, _, _, _, _, _, _) => exists instants :: ReadAt(tasks, s, schedule, t, th, instants)
  }

  /** A step of another call, or of a call waiting for the lock. */
  lemma ReadUnmoved(tasks: seq<Task>, s: State, schedule: seq<nat>, next: nat, t: nat)
    requires Fine(tasks, s) && t < |tasks| && tasks[t].ReadTask? && ReadOk(tasks, s, schedule, t)
    requires After(tasks, s, schedule + [next]).threads[t] == After(tasks, s, schedule).threads[t]
    ensures ReadOk(tasks, s, schedule + [next], t)
  {
    hide Fine, After, SeenAlong, FetchedLast, AtChunk, Lo;
    var th := After(tasks, s, schedule).threads[t];
    match th
    case Idle =>
    case Done(out) =>
      var instants :| ReadDone(tasks, s, schedule, t, out, instants);
      assert out + [] == out;
      SeenOn(tasks, s, schedule, next, t, out, [], instants);
      assert ReadDone(tasks, s, schedule + [next], t, out, instants);
    case Active(_, _, _, _, _, _, _, _) =>
      var instants :| ReadAt(tasks, s, schedule, t, th, instants);
      ReadAtOn(tasks, s, schedule, next, t, th, instants);
  }

  lemma ReadAtOn(tasks: seq<Task>, s: State, schedule: seq<nat>, next: nat, t: nat, th: Thread, instants: seq<nat>)
    requires Fine(tasks, s) && t < |tasks| && tasks[t].ReadTask?
    requires th.Active? && ReadAt(tasks, s, schedule, t, th, instants)
    ensures ReadAt(tasks, s, schedule + [next], t, th, instants)
  {
    hide Fine, After, SeenAlong, Fetched, NotBefore, AtChunk;
    assert th.out + [] == th.out;
    SeenOn(tasks, s, schedule, next, t, th.out, [], instants);
    if th.pc.Moved? {
      var i :| Fetched(tasks, s, schedule, t, th.at, th.buf, i) && NotBefore(instants, i);
      FetchedOn(tasks, s, schedule, next, t, th.at, th.buf, i);
    }
  }

  lemma FetchStep(tasks: seq<Task>, s: State, t: nat)
    requires Fine(tasks, s) && t < |tasks|
    requires var th := s.threads[t]; th.Active? && th.phase.Reading? && th.pc.Sought?
    ensures var task, th := tasks[t], s.threads[t];
            var n := Take(task, th.done);
            && th.at + n <= task.vol.size && task.vol.start + task.vol.size <= |s.data|
            && |Step(tasks, s, t).threads| == |tasks|
            && Step(tasks, s, t).threads[t] == th.(pc := Moved, buf := Region(task.vol, s.data)[th.at..th.at + n])
  {
    hide Inverse, InStep, Chunked;
    var task, th := tasks[t], s.threads[t];
    TurnFits(task, th, |s.data|);
    SliceOfSlice(s.data, task.vol.start, task.vol.size, th.at, th.at + Take(task, th.done));
  }

  /** fread: the buffer is the ciphertext of the chunk at this instant. */
  lemma ReadFetches(tasks: seq<Task>, s: State, schedule: seq<nat>, t: nat, instants: seq<nat>)
    requires Fine(tasks, s) && t < |tasks| && tasks[t].ReadTask?
    requires var th := After(tasks, s, schedule).threads[t];
             th.Active? && th.phase.Reading? && th.pc.Sought? && ReadAt(tasks, s, schedule, t, th, instants)
    ensures ReadOk(tasks, s, schedule + [t], t)
  {
    hide After, SeenAlong, Step, TaskOk, ThreadOk, Take;
    var now := After(tasks, s, schedule);
    var task, th := tasks[t], now.threads[t];
    ReadAtOn(tasks, s, schedule, t, t, th, instants);
    SeenByNow(tasks, s, schedule, t, th.out, instants);
    FetchStep(tasks, now, t);
    AfterPrefix(tasks, s, schedule, t, |schedule|);
    assert schedule[..|schedule|] == schedule;
    var r := After(tasks, s, schedule + [t]).threads[t];
    assert Fetched(tasks, s, schedule + [t], t, r.at, r.buf, |schedule|);
    assert ReadAt(tasks, s, schedule + [t], t, r, instants);
  }

  lemma SeenByNow(tasks: seq<Task>, s: State, schedule: seq<nat>, t: nat, out: seq<byte>, instants: seq<nat>)
    requires Fine(tasks, s) && t < |tasks| && tasks[t].ReadTask? && SeenAlong(tasks, s, schedule, t, out, instants)
    ensures NotBefore(instants, |schedule|)
  {
    hide Fine, After, View, Lo, Hi;
  }

  /** The unlock after it: one more chunk seen, and either the next one at hand or none left. */
  lemma ReadCopies(tasks: seq<Task>, s: State, schedule: seq<nat>, t: nat, instants: seq<nat>)
    requires Fine(tasks, s) && t < |tasks| && tasks[t].ReadTask?
    requires var th := After(tasks, s, schedule).threads[t];
             th.Active? && th.pc.Moved? && ReadAt(tasks, s, schedule, t, th, instants)
    ensures ReadOk(tasks, s, schedule + [t], t)
  {
    hide After, SeenAlong, Fetched, NotBefore, Inverse, InStep, Chunked, Chunk, NextSectorOffset;
    var now := After(tasks, s, schedule);
    var task, th, m := tasks[t], now.threads[t], |instants|;
    var i :| Fetched(tasks, s, schedule, t, th.at, th.buf, i) && NotBefore(instants, i);
    AfterPrefix(tasks, s, schedule, t, |schedule|);
    OneMoreSeen(tasks, s, schedule, t, th, instants, i);
    ChunkAfter(task, th, |now.data|, m);
    var r := After(tasks, s, schedule + [t]).threads[t];
    assert r == Unlocked(task, th, |now.data|);
    if r.Active? {
      assert ReadAt(tasks, s, schedule + [t], t, r, instants + [i]);
    } else {
      assert ReadDone(tasks, s, schedule + [t], t, r.out, instants + [i]);
    }
  }

  lemma OneMoreSeen(tasks: seq<Task>, s: State, schedule: seq<nat>, t: nat, th: Thread, instants: seq<nat>, i: nat)
    requires Fine(tasks, s) && t < |tasks| && tasks[t].ReadTask?
    requires th.Active? && th.pc.Moved? && ThreadOk(tasks[t], th) && TaskOk(tasks[t], |s.data|)
    requires AtChunk(tasks[t], th, |instants|) && SeenAlong(tasks, s, schedule, t, th.out, instants)
    requires Fetched(tasks, s, schedule, t, th.at, th.buf, i) && NotBefore(instants, i)
    ensures SeenAlong(tasks, s, schedule + [t], t, th.out + Chunk(tasks[t], th, |s.data|), instants + [i])
  {
    hide Fine, TaskOk, ThreadOk, SeenAt, Fetched, Chunk, AtChunk;
    var chunk, m := Chunk(tasks[t], th, |s.data|), |instants|;
    SeenOn(tasks, s, schedule, t, t, th.out, chunk, instants);
    ChunkSeen(tasks, s, schedule, t, th, m, i);
    ChunkSeenOn(tasks, s, schedule, t, t, m, th.out + chunk, [], i);
    assert th.out + chunk + [] == th.out + chunk;
  }

  lemma ChunkAfter(task: Task, th: Thread, length: nat, m: nat)
    requires task.ReadTask? && th.Active? && th.pc.Moved? && ThreadOk(task, th) && TaskOk(task, length)
    requires AtChunk(task, th, m)
    ensures var r := Unlocked(task, th, length);
            && (r.Active? ==> AtChunk(task, r, m + 1) && r.out == th.out + Chunk(task, th, length) && !r.pc.Moved?)
            && (r.Done? ==> r.out == th.out + Chunk(task, th, length))
            && (r.Done? ==> forall j: nat :: Lo(task, j) < task.offset + task.size ==> j <= m)
  {
    hide InStep, Chunked, Inverse, Chunk, NextSectorOffset, CopySize;
    ChunkBounds(task, th, length, m);
    ChunkFits(th.at, th.sectorOffset, th.skip, task.size - th.done, Take(task, th.done),
              Copied(task, th.done, th.skip));
  }

  /** A read begins, takes the lock or seeks. */
  lemma ReadQuiet(tasks: seq<Task>, s: State, schedule: seq<nat>, t: nat)
    requires Fine(tasks, s) && t < |tasks| && tasks[t].ReadTask? && ReadOk(tasks, s, schedule, t)
    requires var th := After(tasks, s, schedule).threads[t];
             th.Idle? || (th.Active? && (th.pc.Free? || th.pc.Locked?))
    ensures ReadOk(tasks, s, schedule + [t], t)
  {
    hide After, SeenAt, FetchedLast, Inverse, InStep, Chunked;
    var now := After(tasks, s, schedule);
    var task, th := tasks[t], now.threads[t];
    AfterPrefix(tasks, s, schedule, t, |schedule|);
    var r := After(tasks, s, schedule + [t]).threads[t];
    if th.Idle? {
      assert ReadAt(tasks, s, schedule + [t], t, r, []);
    } else {
      var instants :| ReadAt(tasks, s, schedule, t, th, instants);
      ReadAtOn(tasks, s, schedule, t, t, th, instants);
      assert r == th || r == th.(pc := Locked) || r == th.(pc := Sought);
      assert ReadAt(tasks, s, schedule + [t], t, r, instants);
    }
  }

  lemma ReadStep(tasks: seq<Task>, s: State, schedule: seq<nat>, next: nat, t: nat)
    requires Fine(tasks, s) && t < |tasks| && tasks[t].ReadTask? && ReadOk(tasks, s, schedule, t)
    ensures ReadOk(tasks, s, schedule + [next], t)
  {
    hide After, SeenAlong, FetchedLast, Inverse, InStep, Chunked, AtChunk, Take, TaskOk;
    var now := After(tasks, s, schedule);
    var th := now.threads[t];
    AfterPrefix(tasks, s, schedule, next, |schedule|);
    if next != t || th.Done? {
      UnmovedStep(tasks, now, next, t);
      ReadUnmoved(tasks, s, schedule, next, t);
    } else if th.Idle? || th.pc.Free? || th.pc.Locked? {
      ReadQuiet(tasks, s, schedule, t);
    } else {
      var instants :| ReadAt(tasks, s, schedule, t, th, instants);
      if th.pc.Sought? {
        ReadFetches(tasks, s, schedule, t, instants);
      } else {
        ReadCopies(tasks, s, schedule, t, instants);
      }
    }
  }

  lemma UnmovedStep(tasks: seq<Task>, s: State, next: nat, t: nat)
    requires Fine(tasks, s) && t < |tasks| && (next != t || s.threads[t].Done?)
    ensures |Step(tasks, s, next).threads| == |tasks| && Step(tasks, s, next).threads[t] == s.threads[t]
  {
    hide ThreadOk, TaskOk;
    if next < |tasks| && next != t {
      OthersStay(tasks, s, next);
    }
  }

  lemma {:induction false} ReadRun(tasks: seq<Task>, s: State, schedule: seq<nat>, t: nat)
    requires Initial(tasks, s) && t < |tasks| && tasks[t].ReadTask?
    ensures ReadOk(tasks, s, schedule, t)
    decreases |schedule|
  {
    hide Fine, ReadAt, ReadDone, Step;
    if schedule != [] {
      var last := |schedule| - 1;
      ReadRun(tasks, s, schedule[..last], t);
      ReadStep(tasks, s, schedule[..last], schedule[last], t);
      assert schedule == schedule[..last] + [schedule[last]];
    }
  }

  /** The bytes of block `b` that fall into the request. */
  function BlockLo(task: Task, b: nat): nat {
    if BLOCK_LEN * b < task.offset then task.offset else BLOCK_LEN * b
  }

  function BlockHi(task: Task, b: nat): nat {
    if BLOCK_LEN * (b + 1) > task.offset + Length(task) then task.offset + Length(task) else BLOCK_LEN * (b + 1)
  }

  /** The chunk block `b` lies in. */
  function ChunkOf(task: Task, b: nat): nat
    requires task.ReadTask? && Covers(task.offset, task.size, b)
  {
    (BLOCK_LEN * b - (task.offset - task.offset % BLOCK_LEN)) / READ_SIZE
  }

  lemma BlockInChunk(task: Task, b: nat)
    requires task.ReadTask? && task.size > 0 && Covers(task.offset, task.size, b)
    ensures var j := ChunkOf(task, b);
            && Lo(task, j) < task.offset + task.size
            && Lo(task, j) <= BlockLo(task, b) < BlockHi(task, b) <= Hi(task, j)
  {
    var a, j := task.offset / BLOCK_LEN, ChunkOf(task, b);
    var d := BLOCK_LEN * (b - a);
    assert task.offset - task.offset % BLOCK_LEN == BLOCK_LEN * a;
    assert d == READ_SIZE * j + d % READ_SIZE;
    assert b - a < 64 * (j + 1);
  }

  /** Block `b` of what the call returned was the plaintext of that block at instant `i`. */
  ghost predicate BlockSeenAt(tasks: seq<Task>, s: State, schedule: seq<nat>, t: nat, b: nat, out: seq<byte>, i: nat)
    requires Fine(tasks, s) && t < |tasks|
  {
    var task, lo, hi := tasks[t], BlockLo(tasks[t], b), BlockHi(tasks[t], b);
    && i <= |schedule|
    && var moment := After(tasks, s, schedule[..i]);
    && moment.threads[t].Active?
    && task.offset <= lo < hi <= task.offset + |out| && hi <= task.vol.size
    && out[lo - task.offset..hi - task.offset]
    == View(task.vol.encrypted, task.vol.keys, Region(task.vol, moment.data))[lo..hi]
  }

  lemma BlockOfChunk(tasks: seq<Task>, s: State, schedule: seq<nat>, t: nat, j: nat, b: nat, out: seq<byte>, i: nat)
    requires Fine(tasks, s) && t < |tasks| && tasks[t].ReadTask? && SeenAt(tasks, s, schedule, t, j, out, i)
    requires Lo(tasks[t], j) <= BlockLo(tasks[t], b) < BlockHi(tasks[t], b) <= Hi(tasks[t], j)
    ensures BlockSeenAt(tasks, s, schedule, t, b, out, i)
  {
    hide After, View, Inverse, Chunked, InStep, Lo, Hi, ThreadOk, BlockLo, BlockHi;
    var task := tasks[t];
    var p := View(task.vol.encrypted, task.vol.keys, Region(task.vol, After(tasks, s, schedule[..i]).data));
    SameInner(out, Lo(task, j) - task.offset, Hi(task, j) - task.offset, p, Lo(task, j),
              BlockLo(task, b) - task.offset, BlockHi(task, b) - task.offset);
  }

  /** Every block of a finished read, at the instant of its chunk. */
  ghost predicate BlocksSeen(tasks: seq<Task>, s: State, schedule: seq<nat>, t: nat, out: seq<byte>, instants: seq<nat>)
    requires Fine(tasks, s) && t < |tasks| && tasks[t].ReadTask?
  {
    forall b: nat :: Covers(tasks[t].offset, tasks[t].size, b) ==>
      && ChunkOf(tasks[t], b) < |instants|
      && BlockSeenAt(tasks, s, schedule, t, b, out, instants[ChunkOf(tasks[t], b)])
  }

  /**
   Whatever writes run beside it, shared blocks or not: each block a read returns is the plaintext of that
   block at one instant while the call was under way. Blocks of one chunk share the instant, and the instants
   of later chunks are not earlier.
   */
  lemma ReadSeesBlocks(tasks: seq<Task>, s: State, schedule: seq<nat>, t: nat) returns (instants: seq<nat>)
    requires Initial(tasks, s) && t < |tasks| && tasks[t].ReadTask?
    requires After(tasks, s, schedule).threads[t].Done?
    ensures Ascending(instants)
    ensures var out := After(tasks, s, schedule).threads[t].out;
            |out| == tasks[t].size && BlocksSeen(tasks, s, schedule, t, out, instants)
  {
    hide After, View, Inverse, Chunked, InStep, Lo, Hi, SeenAt, BlockSeenAt, ChunkOf, BlockLo, BlockHi;
    var task := tasks[t];
    var r := After(tasks, s, schedule);
    ReadRun(tasks, s, schedule, t);
    assert ThreadOk(task, r.threads[t]);
    var out := r.threads[t].out;
    instants :| ReadDone(tasks, s, schedule, t, out, instants);
    forall b: nat | Covers(task.offset, task.size, b)
      ensures ChunkOf(task, b) < |instants|
      ensures BlockSeenAt(tasks, s, schedule, t, b, out, instants[ChunkOf(task, b)])
    {
      BlockInChunk(task, b);
      BlockOfChunk(tasks, s, schedule, t, ChunkOf(task, b), b, out, instants[ChunkOf(task, b)]);
    }
  }

  lemma SameInner(s: seq<byte>, a: nat, b: nat, p: seq<byte>, c: nat, lo: nat, hi: nat)
    requires a <= lo <= hi <= b <= |s| && c + (b - a) <= |p| && s[a..b] == p[c..c + (b - a)]
    ensures s[lo..hi] == p[c + (lo - a)..c + (hi - a)]
  {
    SliceOfSlice(s, a, b - a, lo - a, hi - a);
    SliceOfSlice(p, c, b - a, lo - a, hi - a);
  }
}
