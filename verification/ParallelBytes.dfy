/** What a run of several threads does to the bytes of the destination: for decompression
    (c-blosc2/blosc/blosc.c:1941-2042), and for the copy that replaces compression, whose
    threads take their shares in the same way (blosc.c:1967-1972, 1992-1997). */
module ParallelBytes {
  import opened Bytes
  import opened Arithmetic
  import opened ParallelDecompress
  import BlockLayout
  import Pipeline
  import Filters
  import Delta

  function From(job: Job, b: nat): nat {
    BlockLayout.Offset(job.blocksize, b)
  }

  function To(job: Job, b: nat): nat
    requires job.blocksize > 0
  {
    From(job, b) + Bsize(job, b)
  }

  /** Blocks lie within the destination, and one behind the other. */
  lemma BlockInside(job: Job, b: nat)
    requires job.blocksize > 0 && b < Nblocks(job)
    ensures From(job, b) < To(job, b) <= job.sourcesize && From(job, 0) == 0
    ensures forall c: nat :: b < c ==> To(job, b) <= From(job, c)
  {
    BlockLayout.BlocksLine(job.sourcesize, job.blocksize, b);
    forall c: nat | b < c
      ensures To(job, b) <= From(job, c)
    {
      ProductGrows(b + 1, c, job.blocksize);
    }
  }

  function Block(job: Job, x: seq<byte>, b: nat): (r: seq<byte>)
    requires job.blocksize > 0 && b < Nblocks(job) && |x| == job.sourcesize
    ensures |r| == Bsize(job, b)
  {
    BlockInside(job, b);
    x[From(job, b)..To(job, b)]
  }

  ghost predicate OnlyBlock(job: Job, x: seq<byte>, y: seq<byte>, b: nat)
    requires job.blocksize > 0
  {
    |x| == |y| && forall k :: 0 <= k < |x| && !(From(job, b) <= k < To(job, b)) ==> y[k] == x[k]
  }

  lemma OtherBlock(job: Job, x: seq<byte>, y: seq<byte>, b: nat, c: nat)
    requires job.blocksize > 0 && b < Nblocks(job) && c < Nblocks(job) && b != c && |x| == job.sourcesize
    requires OnlyBlock(job, x, y, b)
    ensures Block(job, y, c) == Block(job, x, c)
  {
    hide From, To;
    BlockInside(job, b);
    BlockInside(job, c);
  }

  /** What the step of thread `t` does to the bytes. `diff(b)` is block `b` before the delta
      filter is undone. Undoing gives the source's block if the difference is in its place
      and the reference is whole; what it gives otherwise is left open. */
  ghost predicate Effect(job: Job, src: seq<byte>, diff: nat -> seq<byte>, s: State, t: nat, x: seq<byte>, y: seq<byte>)
    requires GoodJob(job) && t < |s.workers| && |src| == job.sourcesize
  {
    && |x| == |y| == job.sourcesize
    && match s.workers[t].pc
       case Decode(b) =>
         b < Nblocks(job) ==>
           && OnlyBlock(job, x, y, b)
           && (Code(job, b) == 0 ==> Block(job, y, b) == if job.delta then diff(b) else Block(job, src, b))
       case Enter(b) =>
         if b == 0 && s.refNotInit && 0 < Nblocks(job) then
           && OnlyBlock(job, x, y, 0)
           && (Block(job, x, 0) == diff(0) ==> Block(job, y, 0) == Block(job, src, 0))
         else y == x
       case Undo(b) =>
         b < Nblocks(job) ==>
           && OnlyBlock(job, x, y, b)
           && (Block(job, x, b) == diff(b) && Block(job, x, 0) == Block(job, src, 0) ==> Block(job, y, b) == Block(job, src, b))
       case _ => y == x
  }

  /** A run and the bytes that go with it. */
  datatype Trace = Begun(s: State, x: seq<byte>) | Next(before: Trace, t: nat, s: State, x: seq<byte>)

  function RunOf(tr: Trace): Run {
    match tr case Begun(s, _) => Start(s) case Next(before, t, s, _) => Then(RunOf(before), t, s)
  }

  ghost predicate Happens(job: Job, src: seq<byte>, diff: nat -> seq<byte>, tr: Trace)
    requires GoodJob(job) && |src| == job.sourcesize
  {
    match tr
    case Begun(s, x) => Init(job, s) && |x| == job.sourcesize
    case Next(before, t, s, x) =>
      && Happens(job, src, diff, before) && Enabled(job, before.s, t) && s == Do(job, before.s, t)
      && Effect(job, src, diff, before.s, t, before.x, x)
  }

  lemma {:induction false} RunOfTrace(job: Job, src: seq<byte>, diff: nat -> seq<byte>, tr: Trace)
    requires GoodJob(job) && |src| == job.sourcesize && Happens(job, src, diff, tr)
    ensures Possible(job, RunOf(tr)) && RunOf(tr).s == tr.s && |tr.x| == job.sourcesize
  {
    hide Do, Enabled;
    if tr.Next? {
      RunOfTrace(job, src, diff, tr.before);
    }
  }

  /** The bytes are what the cells say. */
  ghost predicate CellMeans(job: Job, src: seq<byte>, diff: nat -> seq<byte>, s: State, x: seq<byte>, b: nat)
    requires job.blocksize > 0 && |src| == |x| == job.sourcesize && |s.dest| == Nblocks(job) && b < Nblocks(job)
  {
    && (s.dest[b] == Right ==> Block(job, x, b) == Block(job, src, b))
    && (s.dest[b] == Difference ==> Block(job, x, b) == diff(b))
  }

  ghost predicate Means(job: Job, src: seq<byte>, diff: nat -> seq<byte>, s: State, x: seq<byte>)
    requires job.blocksize > 0
  {
    && |src| == |x| == job.sourcesize && |s.dest| == Nblocks(job)
    && forall b: nat :: b < Nblocks(job) ==> CellMeans(job, src, diff, s, x, b)
  }

  /** The block that a step touches, if it touches one. */
  function Touched(p: Pc): int {
    match p case Decode(b) => b case Enter(b) => b case Undo(b) => b case _ => -1
  }

  lemma OthersKeepTheirMeaning(job: Job, src: seq<byte>, diff: nat -> seq<byte>, s: State, t: nat, x: seq<byte>, y: seq<byte>, b: nat)
    requires GoodJob(job) && ErrorFree(job) && Inv(job, s) && Enabled(job, s, t) && Means(job, src, diff, s, x)
    requires Effect(job, src, diff, s, t, x, y) && b < Nblocks(job) && b != Touched(s.workers[t].pc)
    ensures |Do(job, s, t).dest| == |s.dest| && CellMeans(job, src, diff, Do(job, s, t), y, b)
  {
    hide Low, High, ParallelDecompress.Bytes, Added, Block, OnlyBlock, Nblocks, WakeAll, First, Limit, Bsize, ReferenceOk, WorkerOk;
    assert CellMeans(job, src, diff, s, x, b);
    var p := s.workers[t].pc;
    if Touched(p) >= 0 {
      if OnlyBlock(job, x, y, Touched(p)) && Touched(p) < Nblocks(job) {
        OtherBlock(job, x, y, Touched(p), b);
      }
    }
  }

  lemma OwnHasItsMeaning(job: Job, src: seq<byte>, diff: nat -> seq<byte>, s: State, t: nat, x: seq<byte>, y: seq<byte>)
    requires GoodJob(job) && ErrorFree(job) && Inv(job, s) && Enabled(job, s, t) && Means(job, src, diff, s, x)
    requires Effect(job, src, diff, s, t, x, y) && Touched(s.workers[t].pc) >= 0
    ensures |Do(job, s, t).dest| == |s.dest| && Touched(s.workers[t].pc) < Nblocks(job)
    ensures CellMeans(job, src, diff, Do(job, s, t), y, Touched(s.workers[t].pc))
  {
    hide Low, High, ParallelDecompress.Bytes, Added, Block, OnlyBlock, Nblocks, WakeAll, First, Limit, Bsize, DoneUpto;
    var b: nat := Touched(s.workers[t].pc);
    assert WorkerOk(job, s, t);
    HighMeans(job, t, b);
    assert CellMeans(job, src, diff, s, x, b) && CellMeans(job, src, diff, s, x, 0);
  }

  /** A thread that has begun a block has a block. */
  lemma OwnBlock(job: Job, src: seq<byte>, diff: nat -> seq<byte>, s: State, t: nat, x: seq<byte>, b: nat)
    requires GoodJob(job) && ErrorFree(job) && Inv(job, s) && t < |s.workers| && Means(job, src, diff, s, x)
    requires s.workers[t].pc == Decode(b) || s.workers[t].pc == Enter(b) || s.workers[t].pc == Undo(b)
    ensures b < Nblocks(job)
    ensures !s.workers[t].pc.Decode? ==> job.delta && Block(job, x, b) == diff(b)
    ensures s.workers[t].pc.Undo? ==> b != 0 && Block(job, x, 0) == Block(job, src, 0)
  {
    hide Low, High, ParallelDecompress.Bytes, Added, Nblocks, First, Limit, Bsize, DoneUpto, Block;
    assert WorkerOk(job, s, t);
    HighMeans(job, t, b);
    assert CellMeans(job, src, diff, s, x, b) && CellMeans(job, src, diff, s, x, 0);
  }

  /** Bytes written to the place of a block. */
  lemma BlockWritten(job: Job, x: seq<byte>, y: seq<byte>, b: nat)
    requires job.blocksize > 0 && b < Nblocks(job) && |x| == |y| == job.sourcesize
    requires forall k :: 0 <= k < |x| && !(From(job, b) <= k < From(job, b) + Bsize(job, b)) ==> y[k] == x[k]
    ensures OnlyBlock(job, x, y, b)
    ensures From(job, b) + Bsize(job, b) <= |y| && Block(job, y, b) == y[From(job, b)..From(job, b) + Bsize(job, b)]
  {
    hide Nblocks, Bsize, From;
    BlockInside(job, b);
  }

  lemma DecodeHasEffect(job: Job, src: seq<byte>, diff: nat -> seq<byte>, s: State, t: nat, x: seq<byte>, y: seq<byte>, b: nat)
    requires GoodJob(job) && t < |s.workers| && |src| == |x| == |y| == job.sourcesize && b < Nblocks(job)
    requires s.workers[t].pc == Decode(b) && OnlyBlock(job, x, y, b)
    requires Block(job, y, b) == if job.delta then diff(b) else Block(job, src, b)
    ensures Effect(job, src, diff, s, t, x, y)
  {
    hide OnlyBlock, Block, Nblocks;
  }

  lemma NoEffect(job: Job, src: seq<byte>, diff: nat -> seq<byte>, s: State, t: nat, x: seq<byte>)
    requires GoodJob(job) && t < |s.workers| && |src| == |x| == job.sourcesize
    requires !s.workers[t].pc.Decode? && !s.workers[t].pc.Undo?
    requires s.workers[t].pc.Enter? ==> s.workers[t].pc.b != 0 || !s.refNotInit
    ensures Effect(job, src, diff, s, t, x, x)
  {
  }

  lemma UndoHasEffect(job: Job, src: seq<byte>, diff: nat -> seq<byte>, s: State, t: nat, x: seq<byte>, y: seq<byte>, b: nat)
    requires GoodJob(job) && t < |s.workers| && |src| == |x| == |y| == job.sourcesize && b < Nblocks(job)
    requires s.workers[t].pc == Undo(b) || (s.workers[t].pc == Enter(b) && b == 0 && s.refNotInit)
    requires OnlyBlock(job, x, y, b) && Block(job, y, b) == Block(job, src, b)
    ensures Effect(job, src, diff, s, t, x, y)
  {
    hide OnlyBlock, Block, Nblocks;
  }

  lemma StepKeepsMeaning(job: Job, src: seq<byte>, diff: nat -> seq<byte>, s: State, t: nat, x: seq<byte>, y: seq<byte>)
    requires GoodJob(job) && ErrorFree(job) && Inv(job, s) && Enabled(job, s, t) && Means(job, src, diff, s, x)
    requires Effect(job, src, diff, s, t, x, y)
    ensures Means(job, src, diff, Do(job, s, t), y)
  {
    hide Do, CellMeans, Inv, Enabled, Nblocks;
    SizesStay(job, s, t);
    forall b: nat | b < Nblocks(job)
      ensures CellMeans(job, src, diff, Do(job, s, t), y, b)
    {
      if b == Touched(s.workers[t].pc) {
        OwnHasItsMeaning(job, src, diff, s, t, x, y);
      } else {
        OthersKeepTheirMeaning(job, src, diff, s, t, x, y, b);
      }
    }
  }

  lemma SizesStay(job: Job, s: State, t: nat)
    requires GoodJob(job) && Enabled(job, s, t)
    ensures t < |s.workers|
    ensures |Do(job, s, t).dest| == |s.dest| && |Do(job, s, t).workers| == |s.workers|
  {
    hide Nblocks, First, Limit, Bsize;
  }

  lemma {:induction false} EveryTraceMeans(job: Job, src: seq<byte>, diff: nat -> seq<byte>, tr: Trace)
    requires GoodJob(job) && ErrorFree(job) && |src| == job.sourcesize && Happens(job, src, diff, tr)
    ensures Inv(job, tr.s) && Means(job, src, diff, tr.s, tr.x)
  {
    hide Do, Inv, Enabled, Effect, Block, Nblocks;
    RunOfTrace(job, src, diff, tr);
    EveryRunKeeps(job, RunOf(tr));
    match tr
    case Begun(s, x) =>
    case Next(before, t, s, x) =>
      EveryTraceMeans(job, src, diff, before);
      StepKeepsMeaning(job, src, diff, before.s, t, before.x, x);
  }

  /** Every complete run without errors leaves the bytes of the source. */
  lemma ErrorFreeRunRestores(job: Job, src: seq<byte>, diff: nat -> seq<byte>, tr: Trace)
    requires GoodJob(job) && ErrorFree(job) && |src| == job.sourcesize && Happens(job, src, diff, tr) && AllDone(tr.s)
    ensures tr.x == src && tr.s.giveup > 0 && tr.s.output == job.sourcesize
  {
    hide Do, Inv, Happens, Nblocks, Bsize, Block, From, To;
    RunOfTrace(job, src, diff, tr);
    ErrorFreeRunDecodesAll(job, RunOf(tr));
    EveryTraceMeans(job, src, diff, tr);
    forall k: nat | k < |src|
      ensures tr.x[k] == src[k]
    {
      var b := BlockOf(job, k);
      assert CellMeans(job, src, diff, tr.s, tr.x, b);
      SameByte(job, tr.x, src, b, k);
    }
  }

  lemma SameByte(job: Job, x: seq<byte>, y: seq<byte>, b: nat, k: nat)
    requires job.blocksize > 0 && b < Nblocks(job) && |x| == |y| == job.sourcesize && From(job, b) <= k < To(job, b)
    requires Block(job, x, b) == Block(job, y, b)
    ensures k < job.sourcesize && x[k] == y[k]
  {
    hide Nblocks, Bsize, From;
    BlockInside(job, b);
    assert x[k] == Block(job, x, b)[k - From(job, b)] && y[k] == Block(job, y, b)[k - From(job, b)];
  }

  lemma BlockOf(job: Job, k: nat) returns (b: nat)
    requires job.blocksize > 0 && k < job.sourcesize
    ensures b < Nblocks(job) && From(job, b) <= k < To(job, b)
  {
    b := BlockLayout.BlockOf(job.sourcesize, job.blocksize, k);
  }

  /** The delta filter as pipeline_d undoes it has that effect on the bytes. */
  method UndoBlock(job: Job, ts: nat, dest: array<byte>, b: nat, ghost src: seq<byte>, ghost diff: nat -> seq<byte>)
    requires job.blocksize > 0 && b < Nblocks(job) && |src| == job.sourcesize <= dest.Length && ts > 0
    requires Block(job, dest[..|src|], b) == diff(b)
    requires Pipeline.Filtered(Filters.DELTA, ts, src, From(job, b), Block(job, src, b), diff(b))
    requires Bsize(job, b) % Delta.WordSize(ts) == 0
    requires if b == 0 then Delta.WordSize(ts) <= Bsize(job, 0) else Block(job, dest[..|src|], 0) == Block(job, src, 0)
    modifies dest
    ensures OnlyBlock(job, old(dest[..|src|]), dest[..|src|], b) && Block(job, dest[..|src|], b) == Block(job, src, b)
    ensures forall k :: |src| <= k < dest.Length ==> dest[k] == old(dest[k])
  {
    hide Pipeline.Filtered, Nblocks, Bsize, Delta.WordSize;
    BlockInside(job, b);
    BlockInside(job, 0);
    var bsize, offset := Bsize(job, b), From(job, b);
    ghost var d := diff(b);
    ReferenceFits(job, b);
    assert b > 0 ==> dest[..bsize] == dest[..|src|][From(job, 0)..To(job, 0)][..bsize];
    assert b > 0 ==> src[..bsize] == src[From(job, 0)..To(job, 0)][..bsize];
    assert dest[..|src|][offset..offset + bsize] == dest[offset..offset + bsize];
    Pipeline.UndoDelta(ts, bsize, dest, offset, src, Block(job, src, b), d);
    assert dest[..|src|][offset..offset + bsize] == dest[offset..offset + bsize];
  }

  lemma ReferenceFits(job: Job, b: nat)
    requires job.blocksize > 0 && b < Nblocks(job)
    ensures b > 0 ==> Bsize(job, b) <= Bsize(job, 0) == To(job, 0) <= From(job, b)
    ensures b == 0 <==> From(job, b) == 0
  {
    BlockLayout.BlocksLine(job.sourcesize, job.blocksize, b);
    BlockLayout.BlocksLine(job.sourcesize, job.blocksize, 0);
    if b > 0 {
      ProductGrows(1, b, job.blocksize);
    }
  }
}
