/** When decompression by several threads ends (c-blosc2/blosc/blosc.c:780-801, 1941-2042):
    always, but for errors in the splits of certain blocks, after which a thread can sleep
    for ever. An unknown filter does no such harm: the delta filter is undone before it is
    reported. */
module ParallelProgress {
  import opened Arithmetic
  import opened ParallelDecompress

  // ----- Where a thread can be, errors or not -----

  /** A thread keeps to its share. */
  ghost predicate Within(job: Job, t: nat, p: Pc)
    requires job.blocksize > 0 && job.nthreads > 0
  {
    match p
    case Begin => true
    case Done => true
    case Test(b) => Low(job, t) <= b <= High(job, t)
    case Sum(b) => Low(job, t) <= b <= High(job, t)
    case Fail(b) => Low(job, t) <= b < High(job, t) && Code(job, b) < 0
    case Enter(b) => Low(job, t) <= b < High(job, t) && job.delta
    case _ => Low(job, t) <= Position(job, t, p) < High(job, t)
  }

  ghost predicate Sound(job: Job, s: State)
    requires job.blocksize > 0 && job.nthreads > 0
  {
    && |s.workers| == job.nthreads && |s.dest| == Nblocks(job)
    && forall t: nat :: t < |s.workers| ==> Within(job, t, s.workers[t].pc)
  }

  /** Only sleeping threads and those that are done cannot take a step. */
  lemma CanStep(job: Job, s: State, t: nat)
    requires job.blocksize > 0 && job.nthreads > 0 && Sound(job, s) && t < |s.workers|
    ensures Enabled(job, s, t) <==> !s.workers[t].pc.Done? && !s.workers[t].pc.Asleep?
  {
    hide Low, High;
    assert Within(job, t, s.workers[t].pc);
    var p := Position(job, t, s.workers[t].pc);
    if Low(job, t) <= p {
      HighMeans(job, t, p);
    }
  }

  lemma StepsWithin(job: Job, s: State, t: nat)
    requires GoodJob(job) && Sound(job, s) && Enabled(job, s, t)
    ensures |Do(job, s, t).workers| == |s.workers| && |Do(job, s, t).dest| == |s.dest|
    ensures Within(job, t, Do(job, s, t).workers[t].pc)
    ensures Work(job, t, Do(job, s, t).workers[t].pc) < Work(job, t, s.workers[t].pc)
  {
    hide Low, High, First, Limit, Nblocks, WakeAll, Bsize;
    assert Within(job, t, s.workers[t].pc);
    HighMeans(job, t, Position(job, t, s.workers[t].pc));
  }

  lemma OthersWithin(job: Job, s: State, t: nat, u: nat)
    requires GoodJob(job) && Sound(job, s) && Enabled(job, s, t) && u < |s.workers| && u != t
    ensures |Do(job, s, t).workers| == |s.workers|
    ensures Within(job, u, Do(job, s, t).workers[u].pc)
    ensures Work(job, u, Do(job, s, t).workers[u].pc) <= Work(job, u, s.workers[u].pc)
  {
    hide Low, High, First, Limit, Nblocks, Bsize;
    assert Within(job, u, s.workers[u].pc);
  }

  lemma StepIsSound(job: Job, s: State, t: nat)
    requires GoodJob(job) && Sound(job, s) && Enabled(job, s, t)
    ensures Sound(job, Do(job, s, t))
  {
    hide Do, Within;
    StepsWithin(job, s, t);
    forall u: nat | u < |s.workers|
      ensures Within(job, u, Do(job, s, t).workers[u].pc)
    {
      if u != t {
        OthersWithin(job, s, t, u);
      }
    }
  }

  lemma {:induction false} EveryRunIsSound(job: Job, r: Run)
    requires GoodJob(job) && Possible(job, r)
    ensures Sound(job, r.s)
  {
    hide Do, Within;
    match r
    case Start(s) => StartIsSound(job, s);
    case Then(before, t, s) =>
      EveryRunIsSound(job, before);
      StepIsSound(job, before.s, t);
  }

  lemma StartIsSound(job: Job, s: State)
    requires GoodJob(job) && Init(job, s)
    ensures Sound(job, s)
  {
  }

  // ----- Every step brings the end closer -----

  function Rank(p: Pc): nat {
    match p
    case Begin => 10
    case Test(_) => 9
    case Decode(_) => 8
    case Enter(_) => 7
    case Asleep(_) => 6
    case Woken(_) => 5
    case Undo(_) => 4
    case Check(_) => 3
    case Fail(_) => 2
    case Sum(_) => 1
    case Done => 0
  }

  /** What a thread still has to do. */
  function Work(job: Job, t: nat, p: Pc): int
    requires job.blocksize > 0 && job.nthreads > 0
  {
    7 * (High(job, t) - Position(job, t, p)) + Rank(p)
  }

  ghost function WorkOf(job: Job, ws: seq<Worker>, n: nat): int
    requires job.blocksize > 0 && job.nthreads > 0 && n <= |ws|
  {
    if n == 0 then 0 else WorkOf(job, ws, n - 1) + Work(job, n - 1, ws[n - 1].pc)
  }

  lemma {:induction false} WorkDrops(job: Job, ws: seq<Worker>, ws': seq<Worker>, t: nat, n: nat)
    requires job.blocksize > 0 && job.nthreads > 0 && n <= |ws| == |ws'| && t < |ws|
    requires forall u: nat :: u < |ws| ==> Work(job, u, ws'[u].pc) <= Work(job, u, ws[u].pc)
    requires Work(job, t, ws'[t].pc) < Work(job, t, ws[t].pc)
    ensures WorkOf(job, ws', n) <= WorkOf(job, ws, n)
    ensures t < n ==> WorkOf(job, ws', n) < WorkOf(job, ws, n)
  {
    hide Work;
    if n > 0 {
      WorkDrops(job, ws, ws', t, n - 1);
    }
  }

  lemma {:induction false} WorkIsLeft(job: Job, s: State, n: nat)
    requires job.blocksize > 0 && job.nthreads > 0 && Sound(job, s) && n <= |s.workers|
    ensures WorkOf(job, s.workers, n) >= 0
  {
    hide Low, High;
    if n > 0 {
      WorkIsLeft(job, s, n - 1);
      assert Within(job, n - 1, s.workers[n - 1].pc);
    }
  }

  lemma StepTakesWork(job: Job, s: State, t: nat)
    requires GoodJob(job) && Sound(job, s) && Enabled(job, s, t)
    ensures Sound(job, Do(job, s, t))
    ensures 0 <= WorkOf(job, Do(job, s, t).workers, job.nthreads) < WorkOf(job, s.workers, job.nthreads)
  {
    hide Do, Within, Work;
    StepIsSound(job, s, t);
    StepsWithin(job, s, t);
    var s' := Do(job, s, t);
    WorkIsLeft(job, s', job.nthreads);
    forall u: nat | u < |s.workers|
      ensures Work(job, u, s'.workers[u].pc) <= Work(job, u, s.workers[u].pc)
    {
      if u != t {
        OthersWithin(job, s, t, u);
      }
    }
    WorkDrops(job, s.workers, s'.workers, t, job.nthreads);
  }

  /** No run goes on for ever, errors or not: every step brings its end closer. */
  lemma EveryRunEnds(job: Job, r: Run, t: nat)
    requires GoodJob(job) && Possible(job, r) && Enabled(job, r.s, t)
    ensures |r.s.workers| == |Do(job, r.s, t).workers| == job.nthreads
    ensures 0 <= WorkOf(job, Do(job, r.s, t).workers, job.nthreads) < WorkOf(job, r.s.workers, job.nthreads)
  {
    hide Do;
    EveryRunIsSound(job, r);
    StepTakesWork(job, r.s, t);
  }

  // ----- When it gets stuck -----

  /** A run that has come to an end although not all threads are done. */
  ghost predicate Stuck(job: Job, s: State) {
    !AllDone(s) && forall t: nat :: !Enabled(job, s, t)
  }

  /** The first block of a thread other than the first one. */
  ghost predicate StartsAt(job: Job, t: nat, b: nat)
    requires job.blocksize > 0 && job.nthreads > 0
  {
    1 <= t < job.nthreads && b == Low(job, t) < Nblocks(job)
  }

  /** The splits of block 0 are bad, or those of the first block of another thread. */
  ghost predicate FirstFailed(job: Job)
    requires job.blocksize > 0 && job.nthreads > 0
  {
    job.early(0) < 0 || exists v: nat, b: nat :: StartsAt(job, v, b) && job.early(b) < 0
  }

  /** do_job leaves the blocks to threads only if there are several, and more than one
      whole block (blosc.c:1079). */
  predicate InThreads(job: Job)
    requires job.blocksize > 0
  {
    job.nthreads > 1 && job.sourcesize / job.blocksize > 1
  }

  /** Some thread has a first block to wait for block 0 with, and thread 0 need not get to
      undo that: because it fails on its splits, or because another thread has failed on
      those of its first block before. */
  ghost predicate CanHang(job: Job)
    requires job.blocksize > 0 && job.nthreads > 0
  {
    && InThreads(job) && job.delta
    && (exists u: nat, b: nat :: StartsAt(job, u, b) && job.early(b) == 0)
    && FirstFailed(job)
  }

  /** While block 0 is not there, no thread gets beyond its first block. */
  ghost predicate Early(job: Job, s: State, t: nat, p: Pc)
    requires job.blocksize > 0 && job.nthreads > 0
  {
    && (!p.Begin? && !p.Done? ==> Position(job, t, p) == Low(job, t))
    && !p.Woken? && !p.Undo?
    && (p.Check? || p.Fail? ==> job.early(p.b) < 0)
    && (p.Enter? ==> job.early(p.b) == 0)
    && (t == 0 && (p.Sum? || p.Done?) && 0 < Nblocks(job) ==> job.early(0) < 0 || s.giveup <= 0)
  }

  ghost predicate Expectant(job: Job, s: State)
    requires job.blocksize > 0 && job.nthreads > 0
  {
    && (forall t: nat :: t < |s.workers| && s.workers[t].pc.Asleep? ==>
          s.refNotInit && job.delta && s.workers[t].pc.b != 0 && job.early(s.workers[t].pc.b) == 0)
    && (job.delta && s.refNotInit ==>
          && (forall t: nat :: t < |s.workers| ==> Early(job, s, t, s.workers[t].pc))
          && (s.giveup <= 0 ==> FirstFailed(job)))
  }

  /** What the step of a thread does to the flag and to the code of the job. */
  lemma StepExpects(job: Job, s: State, t: nat)
    requires GoodJob(job) && Sound(job, s) && Expectant(job, s) && Enabled(job, s, t)
    ensures var s' := Do(job, s, t);
            && |s'.workers| == |s.workers|
            && (s'.refNotInit ==> s.refNotInit)
            && (s'.workers[t].pc.Asleep? ==> s'.refNotInit && job.delta && s'.workers[t].pc.b != 0 && job.early(s'.workers[t].pc.b) == 0)
            && (s.giveup <= 0 ==> s'.giveup <= 0)
            && (job.delta && s'.refNotInit ==> Early(job, s', t, s'.workers[t].pc) && (s'.giveup <= 0 ==> FirstFailed(job)))
            && forall u: nat :: u < |s.workers| && u != t ==>
                 s'.workers[u] == if s'.refNotInit == s.refNotInit then s.workers[u] else WakeAll(s.workers)[u]
  {
    hide Low, High, First, Limit, Nblocks, Bsize, FirstFailed;
    var p := s.workers[t].pc;
    assert Within(job, t, p);
    assert job.delta && s.refNotInit ==> Early(job, s, t, p);
    ThreadZeroFirst(job);
    HighMeans(job, t, Low(job, t));
    if job.delta && s.refNotInit && p.Fail? {
      FailsFirst(job, t, p.b);
    }
  }

  lemma FailsFirst(job: Job, t: nat, b: nat)
    requires GoodJob(job) && t < job.nthreads && b == Low(job, t) < High(job, t) && job.early(b) < 0
    ensures FirstFailed(job)
  {
    ThreadZeroFirst(job);
    HighMeans(job, t, b);
    assert t > 0 ==> StartsAt(job, t, b);
  }

  lemma StepIsExpectant(job: Job, s: State, t: nat)
    requires GoodJob(job) && Sound(job, s) && Expectant(job, s) && Enabled(job, s, t)
    ensures Expectant(job, Do(job, s, t))
  {
    hide Do, Low, High, Nblocks, Enabled, FirstFailed;
    StepExpects(job, s, t);
    var s' := Do(job, s, t);
    forall u: nat | u < |s'.workers| && job.delta && s'.refNotInit
      ensures Early(job, s', u, s'.workers[u].pc)
    {
      if u != t {
        assert Early(job, s, u, s.workers[u].pc);
      }
    }
  }

  lemma {:induction false} EveryRunIsExpectant(job: Job, r: Run)
    requires GoodJob(job) && Possible(job, r)
    ensures Sound(job, r.s) && Expectant(job, r.s)
  {
    hide Do, Sound, Expectant, Enabled;
    match r
    case Start(s) =>
      StartIsSound(job, s);
      StartIsExpectant(job, s);
    case Then(before, t, s) =>
      EveryRunIsExpectant(job, before);
      StepIsSound(job, before.s, t);
      StepIsExpectant(job, before.s, t);
  }

  lemma StartIsExpectant(job: Job, s: State)
    requires GoodJob(job) && Init(job, s)
    ensures Expectant(job, s)
  {
  }

  /** Whoever sleeps when nobody can step sleeps for the reason given. */
  lemma StuckMeans(job: Job, r: Run)
    requires GoodJob(job) && InThreads(job) && Possible(job, r) && Stuck(job, r.s)
    ensures CanHang(job)
  {
    hide Do, Low, High, Nblocks, Enabled, Possible;
    var s := r.s;
    EveryRunIsExpectant(job, r);
    var u: nat :| u < |s.workers| && s.workers[u].pc != Done;
    CanStep(job, s, u);
    var b := s.workers[u].pc.b;
    assert Early(job, s, u, s.workers[u].pc) && Within(job, u, s.workers[u].pc);
    HighMeans(job, u, b);
    ThreadZeroFirst(job);
    assert StartsAt(job, u, b);
    CanStep(job, s, 0);
    assert Early(job, s, 0, s.workers[0].pc);
  }

  // ----- How it comes to that -----

  /** Block 0 will not be undone any more. */
  ghost predicate Doomed(job: Job, s: State) {
    && s.refNotInit && (job.early(0) < 0 || s.giveup <= 0)
    && forall t: nat :: t < |s.workers| ==>
         s.workers[t].pc != Enter(0) && (job.early(0) < 0 || s.workers[t].pc != Decode(0))
  }

  lemma DoomedForEver(job: Job, s: State, t: nat)
    requires GoodJob(job) && Sound(job, s) && Doomed(job, s) && Enabled(job, s, t)
    ensures Doomed(job, Do(job, s, t))
    ensures |Do(job, s, t).workers| == |s.workers|
    ensures forall u: nat :: u < |s.workers| && u != t ==> Do(job, s, t).workers[u] == s.workers[u]
  {
    hide Low, High, First, Limit, Nblocks, Bsize;
    assert Within(job, t, s.workers[t].pc);
  }

  /** From there every run that is carried on to its end is stuck. */
  lemma RunToTheEnd(job: Job, r: Run, u: nat) returns (end: Run)
    requires GoodJob(job) && Possible(job, r) && Doomed(job, r.s) && u < |r.s.workers| && r.s.workers[u].pc.Asleep?
    ensures Possible(job, end) && Stuck(job, end.s)
    decreases WorkLeft(job, r)
  {
    hide Do, Doomed;
    EveryRunIsSound(job, r);
    if t: nat :| Enabled(job, r.s, t) {
      var s' := Do(job, r.s, t);
      DoomedForEver(job, r.s, t);
      StepTakesWork(job, r.s, t);
      assert u != t;
      end := RunToTheEnd(job, Then(r, t, s'), u);
    } else {
      end := r;
    }
  }

  ghost function WorkLeft(job: Job, r: Run): nat
    requires GoodJob(job) && Possible(job, r)
  {
    EveryRunIsSound(job, r);
    WorkIsLeft(job, r.s, job.nthreads);
    WorkOf(job, r.s.workers, job.nthreads)
  }

  /** A run goes on with thread `t`. */
  lemma GoesOn(job: Job, r: Run, t: nat) returns (r': Run)
    requires GoodJob(job) && Possible(job, r) && Sound(job, r.s) && t < |r.s.workers|
    requires !r.s.workers[t].pc.Done? && !r.s.workers[t].pc.Asleep?
    ensures Enabled(job, r.s, t) && r' == Then(r, t, Do(job, r.s, t)) && Possible(job, r') && Sound(job, r'.s)
  {
    hide Do, Sound, Enabled;
    CanStep(job, r.s, t);
    StepIsSound(job, r.s, t);
    r' := Then(r, t, Do(job, r.s, t));
  }

  /** Only thread `t` has moved, to `p`, and nothing else has changed but its blocks. */
  ghost predicate Went(s: State, t: nat, p: Pc, s': State) {
    && t < |s.workers| == |s'.workers| && s'.workers[t].pc == p
    && (forall u: nat :: u < |s.workers| && u != t ==> s'.workers[u] == s.workers[u])
    && s'.refNotInit == s.refNotInit && s'.giveup == s.giveup
  }

  /** A thread decodes its first block, as long as nobody has given up. */
  lemma DecodesFirst(job: Job, r: Run, t: nat, b: nat) returns (r': Run)
    requires GoodJob(job) && Possible(job, r) && Sound(job, r.s) && StartsAt(job, t, b) && r.s.giveup > 0
    requires r.s.workers[t].pc == Begin
    ensures Possible(job, r') && Sound(job, r'.s)
    ensures Went(r.s, t, if job.early(b) < 0 || !job.delta then Check(b) else Enter(b), r'.s)
  {
    hide Low, High, Nblocks, Enabled, Possible, Within;
    FirstIsMine(job, t, b);
    var r1 := GoesOn(job, r, t);
    var r2 := GoesOn(job, r1, t);
    r' := GoesOn(job, r2, t);
  }

  lemma FirstIsMine(job: Job, t: nat, b: nat)
    requires job.blocksize > 0 && job.nthreads > 0 && StartsAt(job, t, b)
    ensures b == First(Nblocks(job), job.nthreads, t) < Limit(Nblocks(job), job.nthreads, t) && b > 0
  {
    var n := BlocksPerThread(Nblocks(job), job.nthreads);
    assert n > 0;
    ProductGrowsFrom(t, n);
  }

  lemma ProductGrowsFrom(t: nat, n: nat)
    requires t > 0 && n > 0
    ensures t * n > 0
  {
  }

  lemma GoesToSleep(job: Job, r: Run, t: nat, b: nat) returns (r': Run)
    requires GoodJob(job) && Possible(job, r) && Sound(job, r.s) && StartsAt(job, t, b) && r.s.giveup > 0
    requires r.s.workers[t].pc == Begin && job.delta && r.s.refNotInit && job.early(b) == 0
    ensures Possible(job, r') && Sound(job, r'.s) && Went(r.s, t, Asleep(b), r'.s)
  {
    hide Low, High, Nblocks, Enabled, Possible, Within;
    FirstIsMine(job, t, b);
    var r1 := DecodesFirst(job, r, t, b);
    r' := GoesOn(job, r1, t);
  }

  lemma GivesUp(job: Job, r: Run, t: nat, b: nat) returns (r': Run)
    requires GoodJob(job) && Possible(job, r) && Sound(job, r.s) && StartsAt(job, t, b) && r.s.giveup > 0
    requires r.s.workers[t].pc == Begin && job.early(b) < 0
    ensures Possible(job, r') && Sound(job, r'.s) && r'.s.giveup < 0 && r'.s.refNotInit == r.s.refNotInit
    ensures |r'.s.workers| == |r.s.workers| && r'.s.workers[t].pc == Sum(b)
    ensures forall u: nat :: u < |r.s.workers| && u != t ==> r'.s.workers[u] == r.s.workers[u]
  {
    hide Low, High, Nblocks, Enabled, Possible, Within;
    var r1 := DecodesFirst(job, r, t, b);
    var r2 := GoesOn(job, r1, t);
    r' := GoesOn(job, r2, t);
  }

  /** A start, from which every run of a job goes out. */
  function Beginning(job: Job): State
    requires job.blocksize > 0
  {
    State(1, true, 0, seq(Nblocks(job), _ => Empty), seq(job.nthreads, _ => Worker(Begin, 0)))
  }

  lemma SomeRunHangs(job: Job) returns (r: Run)
    requires GoodJob(job) && CanHang(job)
    ensures Possible(job, r) && Stuck(job, r.s)
  {
    hide Low, High, Nblocks, Do, Possible, Within;
    r := Start(Beginning(job));
    BeginningIsStart(job);
    var u: nat, b: nat :| StartsAt(job, u, b) && job.early(b) == 0;
    r := GoesToSleep(job, r, u, b);
    FirstIsMine(job, u, b);
    if job.early(0) == 0 {
      var v: nat, c: nat :| StartsAt(job, v, c) && job.early(c) < 0;
      FirstIsMine(job, v, c);
      r := GivesUp(job, r, v, c);
    }
    r := RunToTheEnd(job, r, u);
  }

  lemma BeginningIsStart(job: Job)
    requires GoodJob(job)
    ensures Init(job, Beginning(job)) && Possible(job, Start(Beginning(job))) && Sound(job, Beginning(job))
  {
  }

  /** do_job can wait for its threads for ever. */
  ghost predicate Hangs(job: Job)
    requires GoodJob(job)
  {
    InThreads(job) && exists r :: Possible(job, r) && Stuck(job, r.s)
  }

  /** Exactly when it does: a thread that is not the first decodes the splits of its first
      block, and those of block 0 or of the first block of such a thread are bad. */
  lemma HangsExactly(job: Job)
    requires GoodJob(job)
    ensures Hangs(job) <==> CanHang(job)
  {
    hide Possible, Stuck;
    if Hangs(job) {
      var r :| Possible(job, r) && Stuck(job, r.s);
      StuckMeans(job, r);
    }
    if CanHang(job) {
      var r := SomeRunHangs(job);
    }
  }

  /** In all other jobs, errors or not, while a thread is not done some thread can step. */
  lemma NoDeadlock(job: Job, r: Run, t: nat) returns (u: nat)
    requires GoodJob(job) && InThreads(job) && !CanHang(job) && Possible(job, r) && t < |r.s.workers| && !r.s.workers[t].pc.Done?
    ensures Enabled(job, r.s, u)
  {
    hide Possible, CanHang, Enabled;
    if forall v: nat :: !Enabled(job, r.s, v) {
      assert r.s.workers[t].pc != Done;
      StuckMeans(job, r);
    }
    u :| Enabled(job, r.s, u);
  }

  /** A job is one of these if the splits of all blocks are good, whatever its filters. */
  lemma GoodSplitsDoNotHang(job: Job)
    requires GoodJob(job) && forall b: nat :: b < Nblocks(job) ==> job.early(b) == 0
    ensures !CanHang(job)
  {
  }

  /** An unknown filter does not keep a bad block 0 from hanging the others: with two blocks
      or more for two threads or more, bad splits of block 0 alone are enough. */
  lemma BadFirstBlockHangs(job: Job)
    requires GoodJob(job) && InThreads(job) && job.delta
    requires job.early(0) < 0 && forall b: nat :: 0 < b < Nblocks(job) ==> job.early(b) == 0
    ensures Hangs(job)
  {
    hide Possible, Stuck;
    SecondThreadStarts(job);
    HangsExactly(job);
  }

  lemma SecondThreadStarts(job: Job)
    requires job.blocksize > 0 && InThreads(job)
    ensures StartsAt(job, 1, Low(job, 1)) && 0 < Low(job, 1)
  {
    hide Nblocks, BlocksPerThread;
    FewerPerThread(Nblocks(job), job.nthreads);
    TwoBlocks(job);
  }

  lemma TwoBlocks(job: Job)
    requires job.blocksize > 0 && InThreads(job)
    ensures Nblocks(job) > 1
  {
  }

  lemma FewerPerThread(nblocks: nat, nthreads: nat)
    requires nthreads > 1
    ensures nblocks > 1 ==> 0 < BlocksPerThread(nblocks, nthreads) < nblocks
  {
    var q, r := nblocks / nthreads, nblocks % nthreads;
    assert nblocks == nthreads * q + r;
    ProductGrows(2, nthreads, q);
  }
}
