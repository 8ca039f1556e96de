/** Decompression by several threads: the other half of t_blosc
    (c-blosc2/blosc/blosc.c:1941-2042), with the wait for block 0 that the delta filter
    needs (blosc.c:780-801). Any thread may take the next step. */
module ParallelDecompress {
  import opened Arithmetic
  import BlockLayout

  // ----- The share of each thread -----

  function BlocksPerThread(nblocks: nat, nthreads: nat): nat
    requires nthreads > 0
  {
    nblocks / nthreads + if nblocks % nthreads > 0 then 1 else 0
  }

  function First(nblocks: nat, nthreads: nat, tid: nat): nat
    requires nthreads > 0
  {
    tid * BlocksPerThread(nblocks, nthreads)
  }

  function Limit(nblocks: nat, nthreads: nat, tid: nat): nat
    requires nthreads > 0
  {
    var tblock := First(nblocks, nthreads, tid) + BlocksPerThread(nblocks, nthreads);
    if tblock > nblocks then nblocks else tblock
  }

  /** Block `b` is the business of thread `tid`. */
  predicate Owns(nblocks: nat, nthreads: nat, tid: nat, b: nat)
    requires nthreads > 0
  {
    First(nblocks, nthreads, tid) <= b < Limit(nblocks, nthreads, tid)
  }

  lemma EnoughBlocksPerThread(nblocks: nat, nthreads: nat)
    requires nthreads > 0
    ensures nblocks <= nthreads * BlocksPerThread(nblocks, nthreads)
  {
    var q, r := nblocks / nthreads, nblocks % nthreads;
    assert nblocks == nthreads * q + r;
    assert nthreads * (q + 1) == nthreads * q + nthreads;
  }

  lemma NextProduct(a: nat, b: nat, n: nat)
    requires a < b
    ensures a * n + n <= b * n
  {
    assert (a + 1) * n == a * n + n;
    ProductGrows(a + 1, b, n);
  }

  /** The shares partition the blocks: every block is somebody's, and nobody else's. */
  lemma SharesPartition(nblocks: nat, nthreads: nat, b: nat) returns (tid: nat)
    requires nthreads > 0 && b < nblocks
    ensures tid < nthreads && Owns(nblocks, nthreads, tid, b)
    ensures forall t: nat :: Owns(nblocks, nthreads, t, b) ==> t == tid
    ensures b == 0 ==> tid == 0 && First(nblocks, nthreads, 0) == 0
  {
    var n := BlocksPerThread(nblocks, nthreads);
    EnoughBlocksPerThread(nblocks, nthreads);
    tid := b / n;
    assert b == n * tid + b % n;
    if tid >= nthreads {
      ProductGrows(nthreads, tid, n);
    }
    forall t: nat | Owns(nblocks, nthreads, t, b)
      ensures t == tid
    {
      if t < tid {
        NextProduct(t, tid, n);
      } else if tid < t {
        NextProduct(tid, t, n);
      }
    }
  }

  // ----- The threads -----

  /** A block can fail in two places. `early(b)` is the error of its splits, or 0: blosc_d
      returns it at once (blosc.c:917, 922). `late` is that of an unknown filter, or 0:
      pipeline_d notes it, goes through the other filters all the same, delta among them,
      and returns it only then, for any block (blosc.c:805-813). */
  datatype Job = Job(sourcesize: nat, blocksize: nat, nthreads: nat, delta: bool, early: nat -> int, late: int)

  ghost predicate GoodJob(job: Job) {
    job.blocksize > 0 && job.nthreads > 0 && job.late <= 0 && forall b: nat :: job.early(b) <= 0
  }

  /** What decoding block `b` comes to: an error, or 0. */
  function Code(job: Job, b: nat): int {
    if job.early(b) < 0 then job.early(b) else job.late
  }

  ghost predicate ErrorFree(job: Job) {
    job.late == 0 && forall b: nat :: job.early(b) == 0
  }

  function Nblocks(job: Job): nat
    requires job.blocksize > 0
  {
    BlockLayout.Nblocks(job.sourcesize, job.blocksize)
  }

  /** The number of bytes in block `b`: the last one can be shorter. */
  function Bsize(job: Job, b: nat): nat
    requires job.blocksize > 0
  {
    BlockLayout.Bsize(job.sourcesize, job.blocksize, b)
  }

  /** What is in the destination at a block: nothing yet; bytes that are still the
      difference from block 0; the source's bytes; or neither, because of an error, or
      because it was undone against a block 0 that was not there yet. */
  datatype Cell = Empty | Difference | Right | Wrong

  /** Where a thread is in its loop, and at which block. */
  datatype Pc =
    | Begin
    | Test(b: nat)
    | Decode(b: nat)
    | Enter(b: nat)
    | Asleep(b: nat)
    | Woken(b: nat)
    | Undo(b: nat)
    | Check(b: nat)
    | Fail(b: nat)
    | Sum(b: nat)
    | Done

  datatype Worker = Worker(pc: Pc, ntbytes: nat)

  datatype State = State(giveup: int, refNotInit: bool, output: nat, dest: seq<Cell>, workers: seq<Worker>)

  ghost predicate Init(job: Job, s: State)
    requires job.blocksize > 0
  {
    && s.giveup == 1 && s.refNotInit && s.output == 0
    && |s.dest| == Nblocks(job) && (forall b :: 0 <= b < |s.dest| ==> s.dest[b] == Empty)
    && |s.workers| == job.nthreads
    && forall t :: 0 <= t < |s.workers| ==> s.workers[t] == Worker(Begin, 0)
  }

  function Goto(s: State, t: nat, p: Pc): State
    requires t < |s.workers|
  {
    s.(workers := s.workers[t := s.workers[t].(pc := p)])
  }

  function Put(s: State, b: nat, c: Cell): State
    requires b < |s.dest|
  {
    s.(dest := s.dest[b := c])
  }

  /** pthread_cond_broadcast on delta_cv. */
  function WakeAll(ws: seq<Worker>): (r: seq<Worker>)
    ensures |r| == |ws|
    ensures forall t :: 0 <= t < |ws| ==>
              r[t] == if ws[t].pc.Asleep? then ws[t].(pc := Woken(ws[t].pc.b)) else ws[t]
  {
    seq(|ws|, t requires 0 <= t < |ws| =>
      if ws[t].pc.Asleep? then ws[t].(pc := Woken(ws[t].pc.b)) else ws[t])
  }

  /** What undoing the delta filter makes of block `b`. */
  function Undone(s: State, b: nat): Cell
    requires b < |s.dest|
  {
    if s.dest[b] == Difference && (b == 0 || s.dest[0] == Right) then Right else Wrong
  }

  /** The critical section of the delta filter. */
  function EnterDelta(s: State, t: nat, b: nat): State
    requires t < |s.workers| && 0 < |s.dest|
  {
    if s.refNotInit then
      if b != 0 then Goto(s, t, Asleep(b))
      else
        var u := Put(Goto(s, t, Check(b)), 0, Undone(s, 0)).(refNotInit := false);
        u.(workers := WakeAll(u.workers))
    else Goto(s, t, if b != 0 then Undo(b) else Check(b))
  }

  /** The steps a thread can take; a sleeping one takes none. */
  predicate Enabled(job: Job, s: State, t: nat) {
    && t < |s.workers| && !s.workers[t].pc.Done? && !s.workers[t].pc.Asleep?
    && match s.workers[t].pc
       case Decode(b) => b < |s.dest|
       case Enter(b) => 0 < |s.dest|
       case Undo(b) => b < |s.dest|
       case _ => true
  }

  function Do(job: Job, s: State, t: nat): State
    requires job.blocksize > 0 && job.nthreads > 0 && Enabled(job, s, t)
  {
    var w := s.workers[t];
    match w.pc
    case Begin => Goto(s, t, Test(First(Nblocks(job), job.nthreads, t)))
    case Test(b) =>
      Goto(s, t, if b < Limit(Nblocks(job), job.nthreads, t) && s.giveup > 0 then Decode(b) else Sum(b))
    case Decode(b) =>
      if job.early(b) < 0 then Goto(Put(s, b, Wrong), t, Check(b))
      else if job.delta then Goto(Put(s, b, if job.late < 0 then Wrong else Difference), t, Enter(b))
      else Goto(Put(s, b, if job.late < 0 then Wrong else Right), t, Check(b))
    case Enter(b) => EnterDelta(s, t, b)
    case Woken(b) => Goto(s, t, Undo(b))
    case Undo(b) => Goto(Put(s, b, Undone(s, b)), t, Check(b))
    case Check(b) =>
      if s.giveup <= 0 then Goto(s, t, Sum(b))
      else if Code(job, b) < 0 then Goto(s, t, Fail(b))
      else s.(workers := s.workers[t := Worker(Test(b + 1), w.ntbytes + Bsize(job, b))])
    case Fail(b) => Goto(s, t, Sum(b)).(giveup := Code(job, b))
    case Sum(b) =>
      if s.giveup > 0 then Goto(s, t, Done).(output := s.output + w.ntbytes) else Goto(s, t, Done)
    case Asleep(b) => s
    case Done => s
  }

  datatype Run = Start(s: State) | Then(before: Run, t: nat, s: State)

  ghost predicate Possible(job: Job, r: Run)
    requires GoodJob(job)
  {
    match r
    case Start(s) => Init(job, s)
    case Then(before, t, s) => Possible(job, before) && Enabled(job, before.s, t) && s == Do(job, before.s, t)
  }

  // ----- Runs without errors -----

  /** The share of a thread: none if nothing is left for it. */
  function Low(job: Job, t: nat): nat
    requires job.blocksize > 0 && job.nthreads > 0
  {
    First(Nblocks(job), job.nthreads, t)
  }

  function High(job: Job, t: nat): (h: nat)
    requires job.blocksize > 0 && job.nthreads > 0
    ensures Low(job, t) <= h
  {
    var limit := Limit(Nblocks(job), job.nthreads, t);
    if limit < Low(job, t) then Low(job, t) else limit
  }

  lemma HighMeans(job: Job, t: nat, b: nat)
    requires job.blocksize > 0 && job.nthreads > 0 && Low(job, t) <= b
    ensures Low(job, t) == First(Nblocks(job), job.nthreads, t)
    ensures b < High(job, t) <==> b < Limit(Nblocks(job), job.nthreads, t)
    ensures b < High(job, t) ==> b < Nblocks(job)
  {
  }

  /** The first block that the thread has not finished. */
  function Position(job: Job, t: nat, p: Pc): nat
    requires job.blocksize > 0 && job.nthreads > 0
  {
    match p
    case Begin => Low(job, t)
    case Done => High(job, t)
    case Test(b) => b
    case Decode(b) => b
    case Enter(b) => b
    case Asleep(b) => b
    case Woken(b) => b
    case Undo(b) => b
    case Check(b) => b
    case Fail(b) => b
    case Sum(b) => b
  }

  ghost function Bytes(job: Job, lo: nat, hi: nat): nat
    requires job.blocksize > 0
    decreases hi
  {
    if hi <= lo then 0 else Bytes(job, lo, hi - 1) + Bsize(job, hi - 1)
  }

  ghost predicate PcOk(job: Job, s: State, high: nat, p: Pc)
    requires |s.dest| >= high
  {
    match p
    case Decode(b) => b < high
    case Enter(b) => b < high && s.dest[b] == Difference && job.delta
    case Asleep(b) => b < high && b != 0 && s.dest[b] == Difference && s.refNotInit && job.delta
    case Woken(b) => b < high && b != 0 && s.dest[b] == Difference && !s.refNotInit && job.delta
    case Undo(b) => b < high && b != 0 && s.dest[b] == Difference && !s.refNotInit && job.delta
    case Check(b) => b < high && s.dest[b] == Right
    case Sum(b) => b == high
    case Fail(_) => false
    case _ => true
  }

  ghost predicate DoneUpto(s: State, low: nat, p: nat) {
    forall b: nat :: low <= b < p && b < |s.dest| ==> s.dest[b] == Right
  }

  ghost predicate WorkerOk(job: Job, s: State, t: nat)
    requires job.blocksize > 0 && job.nthreads > 0
  {
    && t < |s.workers|
    && var w, low, high := s.workers[t], Low(job, t), High(job, t);
    && var p := Position(job, t, w.pc);
    && low <= p <= high && DoneUpto(s, low, p)
    && (!w.pc.Done? ==> w.ntbytes == Bytes(job, low, p))
    && (low < high ==> high <= |s.dest|)
    && (low < high ==> PcOk(job, s, high, w.pc))
    && (low == high ==> w.pc.Begin? || w.pc.Test? || w.pc.Sum? || w.pc.Done?)
  }

  /** What the finished threads have added up. */
  ghost function Added(job: Job, ws: seq<Worker>, n: nat): nat
    requires job.blocksize > 0 && job.nthreads > 0 && n <= |ws|
  {
    if n == 0 then 0
    else Added(job, ws, n - 1) + if ws[n - 1].pc.Done? then Bytes(job, Low(job, n - 1), High(job, n - 1)) else 0
  }

  /** Block 0 is whole once the flag says so, and until then thread 0 is on its way to it. */
  ghost predicate ReferenceOk(job: Job, s: State)
    requires job.blocksize > 0 && job.nthreads > 0
  {
    job.delta && 0 < |s.dest| && 0 < |s.workers| ==>
      && (s.refNotInit <==> s.dest[0] != Right)
      && var p := s.workers[0].pc;
         s.refNotInit <==> p.Begin? || p == Test(0) || p == Decode(0) || p == Enter(0)
  }

  ghost predicate Inv(job: Job, s: State)
    requires job.blocksize > 0 && job.nthreads > 0
  {
    && s.giveup == 1 && |s.workers| == job.nthreads && |s.dest| == Nblocks(job)
    && (forall t: nat :: t < |s.workers| ==> WorkerOk(job, s, t))
    && s.output == Added(job, s.workers, job.nthreads)
    && ReferenceOk(job, s)
  }

  lemma OneOwner(nblocks: nat, nthreads: nat, t: nat, u: nat, b: nat)
    requires nthreads > 0 && b < nblocks && Owns(nblocks, nthreads, t, b) && Owns(nblocks, nthreads, u, b)
    ensures t == u
  {
    hide Owns;
    var o := SharesPartition(nblocks, nthreads, b);
  }

  lemma SharesDisjoint(job: Job, t: nat, u: nat, b: nat)
    requires job.blocksize > 0 && job.nthreads > 0 && Low(job, t) <= b < High(job, t)
    ensures Low(job, u) <= b < High(job, u) ==> t == u
  {
    hide First, Limit, High, Nblocks, BlocksPerThread;
    HighMeans(job, t, b);
    if Low(job, u) <= b < High(job, u) {
      HighMeans(job, u, b);
      OneOwner(Nblocks(job), job.nthreads, t, u, b);
    }
  }

  /** Only thread `t` has moved, and it has touched no block but those of its share; when
      the reference becomes ready, sleeping threads are woken. */
  ghost predicate Moved(job: Job, s: State, t: nat, s': State)
    requires job.blocksize > 0 && job.nthreads > 0
  {
    && t < |s.workers| == |s'.workers| && |s.dest| == |s'.dest|
    && (forall b: nat :: b < |s.dest| && !(Low(job, t) <= b < High(job, t)) ==> s'.dest[b] == s.dest[b])
    && (s'.refNotInit == s.refNotInit || (s.refNotInit && !s'.refNotInit))
    && forall u: nat :: u < |s.workers| && u != t ==>
         if s'.refNotInit == s.refNotInit then s'.workers[u] == s.workers[u]
         else s'.workers[u] == WakeAll(s.workers)[u]
  }

  lemma OtherKeeps(job: Job, s: State, t: nat, s': State, u: nat)
    requires job.blocksize > 0 && job.nthreads > 0
    requires WorkerOk(job, s, u) && Moved(job, s, t, s') && t != u
    requires s'.refNotInit != s.refNotInit ==> !s.workers[u].pc.Woken? && !s.workers[u].pc.Undo?
    ensures WorkerOk(job, s', u)
  {
    hide Low, High, Bytes, WakeAll;
    forall b: nat | Low(job, u) <= b < High(job, u) && b < |s.dest|
      ensures s'.dest[b] == s.dest[b]
    {
      if Low(job, t) <= b < High(job, t) {
        SharesDisjoint(job, t, u, b);
      }
    }
  }

  lemma {:induction false} AddedMove(job: Job, ws: seq<Worker>, ws': seq<Worker>, t: nat, n: nat)
    requires job.blocksize > 0 && job.nthreads > 0 && n <= |ws| == |ws'| && t < |ws|
    requires forall u: nat :: u < |ws| && u != t ==> (ws[u].pc.Done? <==> ws'[u].pc.Done?)
    requires !ws[t].pc.Done?
    ensures Added(job, ws', n)
         == Added(job, ws, n) + if t < n && ws'[t].pc.Done? then Bytes(job, Low(job, t), High(job, t)) else 0
  {
    hide Low, High, Bytes;
    if n > 0 {
      AddedMove(job, ws, ws', t, n - 1);
    }
  }

  lemma OwnWorker(job: Job, s: State, t: nat)
    requires GoodJob(job) && ErrorFree(job) && Inv(job, s) && Enabled(job, s, t)
    ensures WorkerOk(job, Do(job, s, t), t)
  {
    hide Low, High, Added, Bsize, WakeAll, First, Limit, Nblocks;
    assert WorkerOk(job, s, t);
    HighMeans(job, t, Position(job, t, s.workers[t].pc));
  }

  lemma OwnMoves(job: Job, s: State, t: nat)
    requires GoodJob(job) && ErrorFree(job) && Inv(job, s) && Enabled(job, s, t)
    ensures var s' := Do(job, s, t);
            && Moved(job, s, t, s') && s'.giveup == 1
            && (s'.workers[t].pc.Done? ==> s'.output == s.output + Bytes(job, Low(job, t), High(job, t)))
            && (!s'.workers[t].pc.Done? ==> s'.output == s.output)
  {
    hide Low, High, Added, Bsize, WakeAll, First, Limit, Nblocks, DoneUpto;
    assert WorkerOk(job, s, t);
    HighMeans(job, t, Position(job, t, s.workers[t].pc));
  }

  lemma ReferenceKeeps(job: Job, s: State, t: nat)
    requires GoodJob(job) && ErrorFree(job) && Inv(job, s) && Enabled(job, s, t)
    ensures ReferenceOk(job, Do(job, s, t))
    ensures Do(job, s, t).refNotInit != s.refNotInit ==>
              forall u: nat :: u < |s.workers| ==> !s.workers[u].pc.Woken? && !s.workers[u].pc.Undo?
  {
    hide Low, High, Added, Bytes, Bsize, First, Limit, Nblocks, DoneUpto;
    assert WorkerOk(job, s, t) && WorkerOk(job, s, 0);
    ThreadZeroFirst(job);
    if Low(job, t) < High(job, t) && Low(job, t) == 0 && |s.dest| > 0 {
      SharesDisjoint(job, t, 0, 0);
    }
    forall u: nat | u < |s.workers|
      ensures s.refNotInit ==> !s.workers[u].pc.Woken? && !s.workers[u].pc.Undo?
    {
      assert WorkerOk(job, s, u);
    }
  }

  lemma ThreadZeroFirst(job: Job)
    requires job.blocksize > 0 && job.nthreads > 0
    ensures Low(job, 0) == 0 == First(Nblocks(job), job.nthreads, 0)
    ensures 0 < Nblocks(job) ==> 0 < High(job, 0) && 0 < Limit(Nblocks(job), job.nthreads, 0)
  {
    if 0 < Nblocks(job) {
      var o := SharesPartition(Nblocks(job), job.nthreads, 0);
    }
  }

  lemma StepKeeps(job: Job, s: State, t: nat)
    requires GoodJob(job) && ErrorFree(job) && Inv(job, s) && Enabled(job, s, t)
    ensures Inv(job, Do(job, s, t))
  {
    hide Low, High, Bytes, WakeAll, Do, WorkerOk, ReferenceOk;
    var s' := Do(job, s, t);
    OwnWorker(job, s, t);
    OwnMoves(job, s, t);
    ReferenceKeeps(job, s, t);
    forall u: nat | u < |s.workers|
      ensures WorkerOk(job, s', u)
    {
      if u != t {
        OtherKeeps(job, s, t, s', u);
      }
    }
    AddedMove(job, s.workers, s'.workers, t, job.nthreads);
  }

  lemma {:induction false} EveryRunKeeps(job: Job, r: Run)
    requires GoodJob(job) && ErrorFree(job) && Possible(job, r)
    ensures Inv(job, r.s)
  {
    hide Inv, Do;
    match r
    case Start(s) => InitKeeps(job, s);
    case Then(before, t, s) =>
      EveryRunKeeps(job, before);
      StepKeeps(job, before.s, t);
  }

  lemma InitKeeps(job: Job, s: State)
    requires GoodJob(job) && Init(job, s)
    ensures Inv(job, s)
  {
    hide Bsize;
    NothingAdded(job, s.workers, job.nthreads);
    forall t: nat | t < |s.workers|
      ensures WorkerOk(job, s, t)
    {
    }
  }

  lemma {:induction false} NothingAdded(job: Job, ws: seq<Worker>, n: nat)
    requires job.blocksize > 0 && job.nthreads > 0 && n <= |ws|
    requires forall t: nat :: t < |ws| ==> ws[t].pc == Begin
    ensures Added(job, ws, n) == 0
  {
    if n > 0 {
      NothingAdded(job, ws, n - 1);
    }
  }

  // ----- What a run comes to -----

  /** No block is undone against block 0 before block 0 is whole. */
  lemma ReferenceComesFirst(job: Job, r: Run, t: nat)
    requires GoodJob(job) && ErrorFree(job) && Possible(job, r) && t < |r.s.workers| && r.s.workers[t].pc.Undo?
    ensures |r.s.dest| > 0 && r.s.dest[0] == Right
  {
    hide Do, Low, High, Bytes, Added;
    EveryRunKeeps(job, r);
    assert WorkerOk(job, r.s, t);
  }

  ghost predicate AllDone(s: State) {
    forall t: nat :: t < |s.workers| ==> s.workers[t].pc == Done
  }

  lemma {:induction false} BytesUpto(job: Job, k: nat)
    requires job.blocksize > 0 && k <= Nblocks(job)
    ensures Bytes(job, 0, k) == if k < Nblocks(job) then k * job.blocksize else job.sourcesize
  {
    assert job.sourcesize == job.sourcesize / job.blocksize * job.blocksize + job.sourcesize % job.blocksize;
    if k > 0 {
      BytesUpto(job, k - 1);
      assert (k - 1) * job.blocksize + job.blocksize == k * job.blocksize;
    }
  }

  lemma {:induction false} BytesSplit(job: Job, m: nat, h: nat)
    requires job.blocksize > 0 && m <= h
    ensures Bytes(job, 0, h) == Bytes(job, 0, m) + Bytes(job, m, h)
    decreases h
  {
    if m < h {
      BytesSplit(job, m, h - 1);
    }
  }

  function Upto(job: Job, k: nat): nat
    requires job.blocksize > 0 && job.nthreads > 0
  {
    if Low(job, k) > Nblocks(job) then Nblocks(job) else Low(job, k)
  }

  lemma NextShare(job: Job, t: nat)
    requires job.blocksize > 0 && job.nthreads > 0
    ensures Bytes(job, 0, Upto(job, t)) + Bytes(job, Low(job, t), High(job, t)) == Bytes(job, 0, Upto(job, t + 1))
  {
    var n := BlocksPerThread(Nblocks(job), job.nthreads);
    assert (t + 1) * n == t * n + n;
    if Low(job, t) <= Nblocks(job) {
      BytesSplit(job, Low(job, t), Upto(job, t + 1));
    }
  }

  lemma {:induction false} AddedAll(job: Job, ws: seq<Worker>, k: nat)
    requires job.blocksize > 0 && job.nthreads > 0 && k <= |ws|
    requires forall t: nat :: t < |ws| ==> ws[t].pc == Done
    ensures Added(job, ws, k) == Bytes(job, 0, Upto(job, k))
  {
    hide Bytes, High;
    if k == 0 {
      ThreadZeroFirst(job);
      BytesUpto(job, 0);
    } else {
      AddedAll(job, ws, k - 1);
      NextShare(job, k - 1);
    }
  }

  lemma EverythingIsShared(job: Job)
    requires job.blocksize > 0 && job.nthreads > 0
    ensures Upto(job, job.nthreads) == Nblocks(job)
  {
    EnoughBlocksPerThread(Nblocks(job), job.nthreads);
  }

  /** A run without errors ends with every block whole, and counts the bytes of the source. */
  lemma ErrorFreeRunDecodesAll(job: Job, r: Run)
    requires GoodJob(job) && ErrorFree(job) && Possible(job, r) && AllDone(r.s)
    ensures |r.s.dest| == Nblocks(job) && forall b :: 0 <= b < |r.s.dest| ==> r.s.dest[b] == Right
    ensures r.s.giveup > 0 && r.s.output == job.sourcesize
  {
    hide Do, Low, High, Bytes, Added, First, Limit, BlocksPerThread;
    var s := r.s;
    EveryRunKeeps(job, r);
    AddedAll(job, s.workers, job.nthreads);
    EverythingIsShared(job);
    BytesUpto(job, Nblocks(job));
    forall b: nat | b < |s.dest|
      ensures s.dest[b] == Right
    {
      var t := SharesPartition(Nblocks(job), job.nthreads, b);
      assert WorkerOk(job, s, t);
      OwnedMeans(job, t, b);
    }
  }

  lemma OwnedMeans(job: Job, t: nat, b: nat)
    requires job.blocksize > 0 && job.nthreads > 0 && Owns(Nblocks(job), job.nthreads, t, b)
    ensures Low(job, t) <= b < High(job, t)
  {
  }
}
