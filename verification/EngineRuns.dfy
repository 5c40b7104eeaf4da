/**
 * The engine's state machine and the code that drives it: every job of the write worker is a run of steps, and a start
 * puts the machine into a state whose map holds the last write of each key.
 */
module EngineRuns {
  import opened Bytes
  import opened Options
  import opened WalRecord
  import opened WalScan
  import opened WalLog
  import opened Wal
  import opened MemTable
  import opened MemTableWorker
  import opened MemTableFiles
  import opened WalLayout
  import opened WalRepair
  import opened WalCrash
  import opened WalMissed
  import opened MemTableStart
  import S = Store

  /** The state machine's view of a worker, behind tables flushed before it was started. */
  ghost function Engine(worker: WriteWorker, zero: seq<Table>, deep: Table): S.State
    reads worker, worker.wal
  {
    S.State(worker.table, zero + worker.flushed, deep, S.Idle, worker.wal.log.NextLsn())
  }

  function ValueOfJob(job: WriteJob): Option<seq<byte>> {
    match job
    case DeleteJob(_) => None
    case PutJob(_, value) => Some(value)
  }

  /** The steps of one job: a flush if the table is full, then the write. */
  function StepsOf(job: WriteJob, flush: bool, advance: nat): seq<S.Step> {
    (if flush then [S.StartFlush, S.AddSegment, S.Clear] else []) + [S.Write(job.key, ValueOfJob(job), advance)]
  }

  /** The states those steps lead through. */
  ghost function StatesOf(s: S.State, job: WriteJob, flush: bool, advance: nat): seq<S.State> {
    var idle := if flush then s.(table := map[], zero := s.zero + [s.table]) else s;
    var written := idle.(table := idle.table[job.key := MemTableValue(ValueOfJob(job), s.nextLsn)], nextLsn := s.nextLsn + advance);
    if flush then [s, s.(phase := S.Flushing), s.(zero := s.zero + [s.table], phase := S.Added), idle, written] else [s, written]
  }

  lemma {:induction false} JobIsRun(s: S.State, job: WriteJob, flush: bool, advance: nat)
    requires S.Inv(s) && s.phase.Idle? && advance > 0
    ensures S.Run(StatesOf(s, job, flush, advance), StepsOf(job, flush, advance))
  {
    hide S.Inv;
  }

  /** Two runs one after the other. */
  lemma {:induction false} RunsJoin(a: seq<S.State>, p: seq<S.Step>, b: seq<S.State>, q: seq<S.Step>)
    requires S.Run(a, p) && S.Run(b, q) && a[|p|] == b[0]
    ensures S.Run(a + b[1..], p + q) && (a + b[1..])[|p + q|] == b[|q|]
  {
    hide S.Inv;
    var states, steps := a + b[1..], p + q;
    forall i | 0 <= i < |steps| ensures S.Enabled(states[i], steps[i]) && states[i + 1] == S.Apply(states[i], steps[i]) {
      if i < |p| {
        assert S.Enabled(a[i], p[i]) && a[i + 1] == S.Apply(a[i], p[i]);
      } else {
        assert states[i] == b[i - |p|] && steps[i] == q[i - |p|];
      }
    }
  }

  /** The jobs can be logged one after another. */
  ghost predicate CanRunAll(crc: Checksum, l: Log, jobs: seq<WriteJob>)
    decreases |jobs|
  {
    jobs != [] ==>
      && |l.numbers| == |l.files| == |l.pieces| > 0 && l.segmentSize > 0 && CanAppend(l, EntryOf(jobs[0], l.NextLsn()))
      && CanRunAll(crc, AppendLog(crc, l, EntryOf(jobs[0], l.NextLsn())), jobs[1..])
  }

  /** The steps of all jobs, given before which of them the table is flushed. */
  function StepsOfAll(jobs: seq<WriteJob>, flushes: seq<bool>, advances: seq<nat>): seq<S.Step>
    requires |jobs| == |flushes| == |advances|
  {
    if jobs == [] then []
    else
      var n := |jobs| - 1;
      StepsOfAll(jobs[..n], flushes[..n], advances[..n]) + StepsOf(jobs[n], flushes[n], advances[n])
  }

  /** The length accounted for before job `i`: that of all jobs since the last flush, or since the start and on top of `size`. */
  function SizeBefore(size: nat, jobs: seq<WriteJob>, flushes: seq<bool>, i: nat): nat
    requires i <= |jobs| && i <= |flushes|
  {
    if i == 0 then size else (if flushes[i - 1] then 0 else SizeBefore(size, jobs, flushes, i - 1)) + JobLen(jobs[i - 1])
  }

  /** A flush precedes a job exactly when that length has reached the maximum. */
  ghost predicate FlushesWhenFull(size: nat, maxSize: nat, jobs: seq<WriteJob>, flushes: seq<bool>) {
    && |flushes| == |jobs|
    && forall i :: 0 <= i < |jobs| ==> (flushes[i] <==> SizeBefore(size, jobs, flushes, i) >= maxSize)
  }

  lemma {:induction false} SizeOfPrefix(size: nat, jobs: seq<WriteJob>, flushes: seq<bool>, jobs': seq<WriteJob>,
                                        flushes': seq<bool>, i: nat)
    requires i <= |jobs| && i <= |flushes| && jobs <= jobs' && flushes <= flushes'
    ensures SizeBefore(size, jobs', flushes', i) == SizeBefore(size, jobs, flushes, i)
  {
    hide JobLen;
    if i > 0 {
      SizeOfPrefix(size, jobs, flushes, jobs', flushes', i - 1);
    }
  }

  lemma {:induction false} OneMoreJob(size: nat, maxSize: nat, jobs: seq<WriteJob>, flushes: seq<bool>,
                                      advances: seq<nat>, job: WriteJob, flush: bool, advance: nat)
    requires FlushesWhenFull(size, maxSize, jobs, flushes) && |advances| == |jobs|
    requires flush <==> SizeBefore(size, jobs, flushes, |jobs|) >= maxSize
    ensures FlushesWhenFull(size, maxSize, jobs + [job], flushes + [flush])
    ensures SizeBefore(size, jobs + [job], flushes + [flush], |jobs| + 1) ==
            (if flush then 0 else SizeBefore(size, jobs, flushes, |jobs|)) + JobLen(job)
    ensures StepsOfAll(jobs + [job], flushes + [flush], advances + [advance]) ==
            StepsOfAll(jobs, flushes, advances) + StepsOf(job, flush, advance)
  {
    hide JobLen, StepsOf, SizeBefore;
    var n := |jobs|;
    forall i | 0 <= i <= n ensures SizeBefore(size, jobs + [job], flushes + [flush], i) == SizeBefore(size, jobs, flushes, i) {
      SizeOfPrefix(size, jobs, flushes, jobs + [job], flushes + [flush], i);
    }
    SizeNext(size, jobs + [job], flushes + [flush], n);
    assert (jobs + [job])[..n] == jobs && (flushes + [flush])[..n] == flushes && (advances + [advance])[..n] == advances;
  }

  lemma {:induction false} SizeNext(size: nat, jobs: seq<WriteJob>, flushes: seq<bool>, i: nat)
    requires i < |jobs| && i < |flushes|
    ensures SizeBefore(size, jobs, flushes, i + 1) == (if flushes[i] then 0 else SizeBefore(size, jobs, flushes, i)) + JobLen(jobs[i])
  {
  }

  /** What the last job on a key leaves there. */
  function LastJob(jobs: seq<WriteJob>, key: Key, initial: Option<seq<byte>>): Option<seq<byte>> {
    if jobs == [] then initial
    else
      var last := jobs[|jobs| - 1];
      if last.key == key then (match last case DeleteJob(_) => None case PutJob(_, value) => Some(value))
      else LastJob(jobs[..|jobs| - 1], key, initial)
  }

  /** The writes among the steps are those of the jobs. */
  lemma {:induction false} WritesOfAll(jobs: seq<WriteJob>, flushes: seq<bool>, advances: seq<nat>, key: Key,
                                       initial: Option<seq<byte>>)
    requires |jobs| == |flushes| == |advances|
    ensures S.Writes(StepsOfAll(jobs, flushes, advances), key, initial) == LastJob(jobs, key, initial)
  {
    hide S.Writes;
    if jobs == [] {
      NoWrites(key, initial);
    } else {
      var n := |jobs| - 1;
      WritesOfAll(jobs[..n], flushes[..n], advances[..n], key, initial);
      WritesOfJob(StepsOfAll(jobs[..n], flushes[..n], advances[..n]), jobs[n], flushes[n], advances[n], key, initial);
    }
  }

  lemma {:induction false} NoWrites(key: Key, initial: Option<seq<byte>>)
    ensures S.Writes([], key, initial) == initial
  {
  }

  lemma {:induction false} WritesOfJob(steps: seq<S.Step>, job: WriteJob, flush: bool, advance: nat, key: Key,
                                       initial: Option<seq<byte>>)
    ensures S.Writes(steps + StepsOf(job, flush, advance), key, initial) ==
            if job.key == key then ValueOfJob(job) else S.Writes(steps, key, initial)
  {
    hide S.Writes;
    var w := S.Write(job.key, ValueOfJob(job), advance);
    if flush {
      assert steps + StepsOf(job, flush, advance) == steps + [S.StartFlush] + [S.AddSegment] + [S.Clear] + [w];
      WritesSnoc(steps, S.StartFlush, key, initial);
      WritesSnoc(steps + [S.StartFlush], S.AddSegment, key, initial);
      WritesSnoc(steps + [S.StartFlush] + [S.AddSegment], S.Clear, key, initial);
      WritesSnoc(steps + [S.StartFlush] + [S.AddSegment] + [S.Clear], w, key, initial);
    } else {
      assert steps + StepsOf(job, flush, advance) == steps + [w];
      WritesSnoc(steps, w, key, initial);
    }
  }

  lemma {:induction false} WritesSnoc(steps: seq<S.Step>, step: S.Step, key: Key, initial: Option<seq<byte>>)
    ensures S.Writes(steps + [step], key, initial) ==
            if step.Write? && step.key == key then step.value else S.Writes(steps, key, initial)
  {
    assert (steps + [step])[..|steps|] == steps;
  }

  /** One job of the worker is the run of its steps: a flush first exactly if the accounted size has reached the maximum. */
  method RunJob(worker: WriteWorker, job: WriteJob, ghost zero: seq<Table>, ghost deep: Table)
    returns (ghost states: seq<S.State>, ghost advance: nat)
    requires worker.Valid() && S.Inv(Engine(worker, zero, deep))
    requires CanAppend(worker.wal.log, EntryOf(job, worker.wal.log.NextLsn()))
    modifies worker, worker.wal, worker.wal.dir, worker.wal.activeSegment
    ensures
      var flush := old(worker.currentSize) >= worker.maxSize;
      && S.Run(states, StepsOf(job, flush, advance)) && states[|StepsOf(job, flush, advance)|] == Engine(worker, zero, deep)
      && worker.currentSize == (if flush then 0 else old(worker.currentSize)) + JobLen(job)
    ensures worker.Valid() && states[0] == old(Engine(worker, zero, deep))
    ensures worker.wal.log == AppendLog(worker.wal.crc, old(worker.wal.log), EntryOf(job, old(worker.wal.log.NextLsn())))
    ensures worker.wal.activeSegment == old(worker.wal.activeSegment) || fresh(worker.wal.activeSegment)
  {
    hide AppendLog, CanAppend, Wal.Valid, ApplyAll, TotalLen, Log.NextLsn, S.Inv, S.Run, JobLen;
    ghost var s := Engine(worker, zero, deep);
    ghost var flush := worker.currentSize >= worker.maxSize;
    ghost var l, e := worker.wal.log, EntryOf(job, worker.wal.log.NextLsn());
    Advances(worker.wal, e);
    var previous := worker.Run(job);
    advance := worker.wal.log.NextLsn() - l.NextLsn();
    JobIsRun(s, job, flush, advance);
    states := StatesOf(s, job, flush, advance);
    EndOfJob(s, job, flush, advance, Engine(worker, zero, deep));
  }

  lemma {:induction false} Advances(wal: Wal, e: WalEntry)
    requires wal.Valid() && CanAppend(wal.log, e)
    ensures |wal.log.numbers| == |wal.log.files| == |wal.log.pieces| > 0 && wal.log.segmentSize > 0
    ensures AppendLog(wal.crc, wal.log, e).NextLsn() > e.lsn == wal.log.NextLsn()
  {
    hide AppendLog, OnDisk;
    LastOnDisk(wal.crc, wal.dir.files, wal.log);
    AppendAdvances(wal.crc, wal.log, e);
  }

  lemma {:induction false} EndOfJob(s: S.State, job: WriteJob, flush: bool, advance: nat, t: S.State)
    requires t.phase == s.phase == S.Idle && t.deep == s.deep && t.nextLsn == s.nextLsn + advance
    requires t.zero == s.zero + if flush then [s.table] else []
    requires t.table == (if flush then map[] else s.table)[job.key := ValueOf(EntryOf(job, s.nextLsn))]
    ensures
      var states, steps := StatesOf(s, job, flush, advance), StepsOf(job, flush, advance);
      |states| == |steps| + 1 && states[0] == s && states[|steps|] == t
  {
    assert s.zero + [] == s.zero;
  }

  /**
   * The loop of the write worker over any jobs. What it does to the table, the flushed tables and the next sequence
   * number is the run of the jobs' steps, so all that is proved of runs holds of it. The table is flushed before a job
   * exactly when what was accounted for since the last flush has reached the maximum.
   */
  method RunJobs(worker: WriteWorker, jobs: seq<WriteJob>, ghost zero: seq<Table>, ghost deep: Table)
    returns (ghost states: seq<S.State>, ghost flushes: seq<bool>, ghost advances: seq<nat>)
    requires worker.Valid() && S.Inv(Engine(worker, zero, deep)) && CanRunAll(worker.wal.crc, worker.wal.log, jobs)
    modifies worker, worker.wal, worker.wal.dir, worker.wal.activeSegment
    ensures FlushesWhenFull(old(worker.currentSize), worker.maxSize, jobs, flushes) && |advances| == |jobs|
    ensures worker.Valid() && S.Run(states, StepsOfAll(jobs, flushes, advances))
    ensures states[0] == old(Engine(worker, zero, deep))
    ensures states[|StepsOfAll(jobs, flushes, advances)|] == Engine(worker, zero, deep)
  {
    hide AppendLog, CanAppend, WriteWorker.Valid, S.Inv, S.Run, Log.NextLsn, StepsOf, FlushesWhenFull, SizeBefore, JobLen,
         StepsOfAll;
    states, flushes, advances := [Engine(worker, zero, deep)], [], [];
    ghost var steps: seq<S.Step> := [];
    EmptyRun(Engine(worker, zero, deep), worker.currentSize, worker.maxSize);
    assert jobs[0..] == jobs && jobs[..0] == [];
    for i := 0 to |jobs|
      invariant worker.Valid() && S.Run(states, steps) && |states| == |steps| + 1
      invariant states[0] == old(Engine(worker, zero, deep)) && states[|steps|] == Engine(worker, zero, deep)
      invariant CanRunAll(worker.wal.crc, worker.wal.log, jobs[i..])
      invariant |flushes| == |advances| == i && steps == StepsOfAll(jobs[..i], flushes, advances)
      invariant FlushesWhenFull(old(worker.currentSize), worker.maxSize, jobs[..i], flushes)
      invariant worker.currentSize == SizeBefore(old(worker.currentSize), jobs[..i], flushes, i)
      invariant worker.wal.activeSegment == old(worker.wal.activeSegment) || fresh(worker.wal.activeSegment)
    {
      S.RunKeepsInv(states, steps, |steps|);
      assert jobs[i..][0] == jobs[i] && jobs[i..][1..] == jobs[i + 1..];
      ghost var flush := worker.currentSize >= worker.maxSize;
      ghost var more, advance;
      more, advance := RunJob(worker, jobs[i], zero, deep);
      ghost var work := StepsOf(jobs[i], flush, advance);
      RunsJoin(states, steps, more, work);
      RunLength(more, work);
      OneMoreJob(old(worker.currentSize), worker.maxSize, jobs[..i], flushes, advances, jobs[i], flush, advance);
      assert jobs[..i + 1] == jobs[..i] + [jobs[i]];
      states, steps, flushes, advances := states + more[1..], steps + work, flushes + [flush], advances + [advance];
    }
    assert jobs[..|jobs|] == jobs;
  }

  lemma {:induction false} EmptyRun(s: S.State, size: nat, maxSize: nat)
    requires S.Inv(s)
    ensures S.Run([s], StepsOfAll([], [], [])) && StepsOfAll([], [], []) == []
    ensures FlushesWhenFull(size, maxSize, [], []) && SizeBefore(size, [], [], 0) == size
  {
    hide S.Inv;
  }

  lemma {:induction false} RunLength(states: seq<S.State>, steps: seq<S.Step>)
    requires S.Run(states, steps)
    ensures |states| == |steps| + 1
  {
  }

  // ---------- a start ----------

  /** The log a start is meant to continue. */
  ghost function LogOf(segmentSize: nat, s: Scenario): Log {
    if s.Fresh? then EmptyLog(segmentSize) else Sound(s)
  }

  /** The log is read up to its end or a reported damage. */
  ghost predicate ReadsAll(s: Scenario) {
    s.Fresh? || s.Clean? || (Broken(s) && !s.Missed?)
  }

  ghost function FromOf(s: Scenario): nat {
    if s.Fresh? then 0 else s.from
  }

  /** What earlier runs flushed: the deeper levels hold the first `base` entries, level zero those of the flushes since. */
  ghost predicate FlushedBefore(es: seq<WalEntry>, base: nat, cuts: seq<nat>, deep: Table) {
    S.CutsOf(es, base, cuts) && forall key :: Lookup(deep, key) == LastWrite(es[..base], key)
  }

  /** The engine as a whole after a start: in order, and with the last write of each key. */
  ghost predicate Restarted(worker: WriteWorker, l: Log, zero: seq<Table>, deep: Table)
    reads worker, worker.wal
  {
    && S.Inv(Engine(worker, zero, deep))
    && forall key :: S.Value(Engine(worker, zero, deep), key) == S.Flatten(LastWrite(l.entries, key))
  }

  lemma {:induction false} StartedIsRestarted(res: StartResult, crc: Checksum, dir: Directory, l: Log, from: nat,
                                              base: nat, cuts: seq<nat>, deep: Table, maxSize: nat)
    requires StartedOn(res, crc, dir, l, from, maxSize) && l.Inv(crc)
    requires FlushedBefore(l.entries, base, cuts, deep) && from <= S.FlushedUpTo(base, cuts)
    ensures Restarted(res.worker, l, S.FlushedTables(l.entries, base, cuts), deep)
  {
    hide ApplyAll, TotalLen, LastWrite, S.FlushedTables, S.Inv, S.Value, S.CutsOf, Log.Shape, Log.Placed;
    S.RestartedMap(l.entries, base, cuts, from, deep, l.NextLsn());
    var zero := S.FlushedTables(l.entries, base, cuts);
    assert zero + res.worker.flushed == zero;
  }

  /**
   * Starting the engine, whatever the last run left behind and however its entries had been flushed: if the write-ahead log
   * reads up to its end or a reported damage, the engine's map holds the last write of each key up to there, although the
   * replay may repeat entries that were flushed already, and it is in a state all results on runs start from.
   */
  method StartEngine(crc: Checksum, dir: Directory, segmentSize: nat, sequenceNumber: nat, maxSize: nat,
                     ghost s: Scenario, ghost base: nat, ghost cuts: seq<nat>, ghost deep: Table)
    returns (res: StartResult)
    requires Fits(crc, dir.files, segmentSize, sequenceNumber, s)
    requires FlushedBefore(LogOf(segmentSize, s).entries, base, cuts, deep) && FromOf(s) <= S.FlushedUpTo(base, cuts)
    modifies dir
    ensures res.Started? ==> fresh(res.worker) && fresh(res.worker.wal) && fresh(res.worker.wal.activeSegment)
    ensures Ends(res, crc, dir, segmentSize, sequenceNumber, s, maxSize)
    ensures ReadsAll(s) ==>
              && StartedOn(res, crc, dir, LogOf(segmentSize, s), FromOf(s), maxSize)
              && Restarted(res.worker, LogOf(segmentSize, s), S.FlushedTables(LogOf(segmentSize, s).entries, base, cuts), deep)
  {
    hide Fits, FlushedBefore, StartedOn, Log.Inv, S.FlushedTables, Sound, Works, Restarted;
    SoundInv(crc, dir.files, segmentSize, sequenceNumber, s);
    res := Start(crc, dir, segmentSize, sequenceNumber, maxSize, s);
    if ReadsAll(s) {
      EndsStarted(res, crc, dir, segmentSize, sequenceNumber, s, maxSize);
      StartedIsRestarted(res, crc, dir, LogOf(segmentSize, s), FromOf(s), base, cuts, deep, maxSize);
    }
  }

  /** The start leaves a worker that can go on. */
  ghost predicate StartsWell(s: Scenario) {
    match s
    case Fresh => true
    case Clean(_, _) => true
    case Damaged(l, d, i, j, _) => FindsAllBehind(d, Cut(l, i, j))
    case Torn(l, k, n, _) => TearOf(l, k, n).Noticed?
    case Missed(_, _, _, _) => false
  }

  /**
   * What a worker did that began with the entries from `from` on in its table: before each job the table was flushed exactly
   * when the length accounted for since the last flush, or in all so far, had reached `maxSize`; and the engine's map
   * holds what the last job on each key left, or else the key's last write among the entries.
   */
  ghost predicate Ran(worker: WriteWorker, es: seq<WalEntry>, from: nat, maxSize: nat, zero: seq<Table>, deep: Table,
                      jobs: seq<WriteJob>, states: seq<S.State>, flushes: seq<bool>, advances: seq<nat>)
    reads worker, worker.wal
  {
    && from <= |es| && |advances| == |jobs| && FlushesWhenFull(TotalLen(es[from..]), maxSize, jobs, flushes)
    && S.Run(states, StepsOfAll(jobs, flushes, advances)) && states[|states| - 1] == Engine(worker, zero, deep)
    && forall key :: S.Value(Engine(worker, zero, deep), key) == LastJob(jobs, key, S.Flatten(LastWrite(es, key)))
  }

  method RunRestarted(worker: WriteWorker, jobs: seq<WriteJob>, ghost l: Log, ghost from: nat, ghost zero: seq<Table>,
                      ghost deep: Table)
    returns (ghost states: seq<S.State>, ghost flushes: seq<bool>, ghost advances: seq<nat>)
    requires worker.Valid() && worker.wal.log == l && Restarted(worker, l, zero, deep)
    requires from <= |l.entries| && worker.currentSize == TotalLen(l.entries[from..])
    requires CanRunAll(worker.wal.crc, l, jobs)
    modifies worker, worker.wal, worker.wal.dir, worker.wal.activeSegment
    ensures worker.Valid() && Ran(worker, l.entries, from, worker.maxSize, zero, deep, jobs, states, flushes, advances)
  {
    hide WriteWorker.Valid, S.Run, S.Value, S.Inv, StepsOfAll, LastJob, CanRunAll, TotalLen, LastWrite, SizeBefore;
    states, flushes, advances := RunJobs(worker, jobs, zero, deep);
    RunLength(states, StepsOfAll(jobs, flushes, advances));
    forall key ensures S.Value(Engine(worker, zero, deep), key) == LastJob(jobs, key, S.Flatten(LastWrite(l.entries, key))) {
      S.RunRefinesMap(states, StepsOfAll(jobs, flushes, advances), key);
      WritesOfAll(jobs, flushes, advances, key, S.Value(states[0], key));
    }
  }

  /** A start followed by any jobs. */
  method StartAndRun(crc: Checksum, dir: Directory, segmentSize: nat, sequenceNumber: nat, maxSize: nat,
                     jobs: seq<WriteJob>,
                     ghost s: Scenario, ghost base: nat, ghost cuts: seq<nat>, ghost deep: Table)
    returns (res: StartResult, ghost states: seq<S.State>, ghost flushes: seq<bool>, ghost advances: seq<nat>)
    requires Fits(crc, dir.files, segmentSize, sequenceNumber, s) && StartsWell(s)
    requires FlushedBefore(LogOf(segmentSize, s).entries, base, cuts, deep) && FromOf(s) <= S.FlushedUpTo(base, cuts)
    requires CanRunAll(crc, LogOf(segmentSize, s), jobs)
    modifies dir
    ensures res.Started? && res.worker.Valid()
    ensures
      var es := LogOf(segmentSize, s).entries;
      Ran(res.worker, es, FromOf(s), maxSize, S.FlushedTables(es, base, cuts), deep, jobs, states, flushes, advances)
  {
    hide Fits, Log.Inv, S.FlushedTables, Sound, CanRunAll, Ends, StartsWell, ReadsAll, TotalLen, ApplyAll, S.CutsOf, LogOf,
         FromOf, Ran, Restarted, StartedOn, WriteWorker.Valid;
    ghost var l := LogOf(segmentSize, s);
    WellReadsAll(s);
    res := StartEngine(crc, dir, segmentSize, sequenceNumber, maxSize, s, base, cuts, deep);
    WellWorks(res, crc, dir, segmentSize, sequenceNumber, s, maxSize);
    StartedFields(res, crc, dir, l, FromOf(s), maxSize);
    states, flushes, advances :=
      RunRestarted(res.worker, jobs, l, FromOf(s), S.FlushedTables(l.entries, base, cuts), deep);
  }

  lemma {:induction false} StartedFields(res: StartResult, crc: Checksum, dir: Directory, l: Log, from: nat,
                                         maxSize: nat)
    requires StartedOn(res, crc, dir, l, from, maxSize)
    ensures res.Started? && from <= |l.entries| && res.worker.currentSize == TotalLen(l.entries[from..])
    ensures res.worker.wal.crc == crc && res.worker.wal.dir == dir && res.worker.wal.log == l && res.worker.maxSize == maxSize
  {
    hide TotalLen, ApplyAll;
  }

  lemma {:induction false} WellReadsAll(s: Scenario)
    requires StartsWell(s)
    ensures ReadsAll(s)
  {
    hide FindsAllBehind, TearOf, Cut;
  }

  lemma {:induction false} WellWorks(res: StartResult, crc: Checksum, dir: Directory, segmentSize: nat,
                                     sequenceNumber: nat,
                                     s: Scenario, maxSize: nat)
    requires Ends(res, crc, dir, segmentSize, sequenceNumber, s, maxSize) && StartsWell(s)
    ensures res.Started? && res.worker.Valid()
  {
    hide StartedOn, FindsAllBehind, TearOf, Cut, WriteWorker.Valid;
    assert s.Fresh? || s.Clean? || s.Damaged? || s.Torn?;
    EndsStarted(res, crc, dir, segmentSize, sequenceNumber, s, maxSize);
    StartedIs(res, crc, dir, LogOf(segmentSize, s), FromOf(s), maxSize);
  }

  lemma {:induction false} EndsStarted(res: StartResult, crc: Checksum, dir: Directory, segmentSize: nat,
                                       sequenceNumber: nat,
                                       s: Scenario, maxSize: nat)
    requires Ends(res, crc, dir, segmentSize, sequenceNumber, s, maxSize) && ReadsAll(s)
    ensures StartedOn(res, crc, dir, LogOf(segmentSize, s), FromOf(s), maxSize)
  {
    hide StartedOn, Works, Cut, TearOf;
  }

  lemma {:induction false} SoundInv(crc: Checksum, disk: map<FileName, seq<byte>>, segmentSize: nat, lsn: nat,
                                    s: Scenario)
    requires Fits(crc, disk, segmentSize, lsn, s)
    ensures ReadsAll(s) ==> LogOf(segmentSize, s).Inv(crc)
  {
    hide Log.Inv, OnDisk, SegmentName, DamagedAt, TornAt, Cut, TearOf, CanCut, TornDisk;
    match s {
      case Fresh => EmptyLogInv(crc, segmentSize);
      case Clean(l, _) =>
      case Damaged(l, d, i, j, _) =>
        DamagedFacts(crc, l, d, i, j);
        CutInv(crc, l, i, j);
      case Torn(l, k, n, from) =>
        if TearOf(l, k, n).Noticed? {
          TornInBounds(crc, l, k, n);
          TornDiskIs(l, k, n);
          OnDiskFacts(disk, TornDisk(l, k, n));
          NoticedReads(crc, disk, l, k, n, from);
        }
      case Missed(_, _, _, _) =>
    }
  }

  /**
   * A start that misses the active file: no key that was written there has its last write in the table, whether the rest of the
   * log was read, cut, or not read at all.
   */
  lemma {:induction false} MissedLosesWrites(res: StartResult, crc: Checksum, dir: Directory, segmentSize: nat,
                                             lsn: nat,
                                             s: Scenario, maxSize: nat, m: nat)
    requires s.Missed? && s.l.Inv(crc) && s.l.segmentSize == segmentSize && s.k < |s.l.files| == |s.l.numbers|
    requires Ends(res, crc, dir, segmentSize, lsn, s, maxSize) && FrontCount(s.l, s.k) <= m < |s.l.entries|
    ensures res.Started? && Lookup(res.worker.table, s.l.entries[m].key) != LastWrite(s.l.entries, s.l.entries[m].key)
  {
    hide Log.Inv, FrontCount, LastWrite, ApplyAll, TotalLen, Cut, InActive, Works;
    var l, c, key := s.l, FrontCount(s.l, s.k), s.l.entries[m].key;
    SoundFront(crc, l, s.k);
    if InActive(l, s.k, lsn) {
      EmptyApply(map[]);
      assert EmptyLog(segmentSize).entries[0..] == l.entries[0..0];
      WritesAreLater(crc, l, 0, 0, m);
    } else {
      SliceOfTake(l.entries, c, s.from);
      WritesAreLater(crc, l, s.from, c, m);
    }
  }

  lemma {:induction false} SoundFront(crc: Checksum, l: Log, k: nat)
    requires l.Inv(crc)
    ensures k < |l.pieces| ==> FrontCount(l, k) <= |l.entries|
    ensures 0 < k < |l.pieces| && l.pieces[k].split ==> Cut(l, k, 0).entries == l.entries[..FrontCount(l, k)]
    ensures |l.pieces| > 0 ==> !l.pieces[0].split
  {
    hide Log.Inv, Layout, Before, Cut, CanCut;
    InvHasShape(crc, l);
    if k < |l.pieces| {
      FrontIsPart(crc, l, k);
      if 0 < k && l.pieces[k].split {
        SplitHasRecord(l, k);
        CutInv(crc, l, k, 0);
        BeforeLength(l.pieces, k, 0);
      }
    }
  }

  /** The last write of a key is not that of an earlier part of the log, if an entry behind that part writes the key. */
  lemma {:induction false} WritesAreLater(crc: Checksum, l: Log, a: nat, b: nat, m: nat)
    requires l.Inv(crc) && a <= b <= m < |l.entries|
    ensures Lookup(ApplyAll(map[], l.entries[a..b]), l.entries[m].key) != LastWrite(l.entries, l.entries[m].key)
  {
    hide LastWrite, ApplyAll, Log.Shape, Log.Placed;
    var key, part := l.entries[m].key, l.entries[a..b];
    ReplayIsLastWrite(part, key);
    KeyIsWritten(l.entries, m);
    var i := S.LastWriteIsEntryOf(l.entries, key);
    if LastWrite(part, key).Some? {
      var j := S.LastWriteIsEntryOf(part, key);
      assert part[j] == l.entries[a + j];
    }
  }

  lemma {:induction false} KeyIsWritten(es: seq<WalEntry>, m: nat)
    requires m < |es|
    ensures LastWrite(es, es[m].key).Some?
  {
    var n := |es| - 1;
    if m < n && es[n].key != es[m].key {
      KeyIsWritten(es[..n], m);
    }
  }
}
