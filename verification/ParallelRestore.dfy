/** Decompression by do_job (c-blosc2/blosc/blosc.c:1071-1097, 1617-1641, 1905-2042): the
    steps of the threads are carried out on one destination, in any order, and the source
    comes back. */
module ParallelRestore {
  import opened Bytes
  import opened LittleEndian
  import opened BlockLayout
  import opened BloscHeader
  import opened BloscChunk
  import opened Filters
  import BloscBlock
  import Delta
  import Pipeline
  import PB = ParallelBytes
  import PD = ParallelDecompress
  import PP = ParallelProgress

  /** The job of decompressing a chunk that a compressor made. */
  function RestoreJob(p: Params, nthreads: nat): PD.Job {
    PD.Job(p.sourcesize, p.blocksize, nthreads, DELTA in p.filters, _ => 0, 0)
  }

  /** Each block as the delta filter finds it. */
  ghost function Differences(p: Params, bl: seq<Coded>): nat -> seq<byte> {
    (b: nat) => if b < |bl| && Pipeline.LeftForDelta(p.filters) < |bl[b].st| then bl[b].st[Pipeline.LeftForDelta(p.filters)] else []
  }

  lemma HasStages(p: Params, st: seq<seq<byte>>)
    requires Pipeline.Known(p.filters) && |st| == MAX_FILTERS + 1
    ensures Pipeline.LeftForDelta(p.filters) < |st|
  {
    hide Pipeline.LeftForDelta;
  }

  /** The call of blosc_d in t_blosc, as far as the delta filter; the thread has buffers of
      its own. */
  method DecodeInThread(p: Params, chunk: array<byte>, b: nat, dest: array<byte>, ghost s: seq<byte>, ghost c: Coded)
    returns (r: int)
    requires GoodParams(p) && SplitDivides(p) && Undoable(p) && |s| == p.sourcesize <= dest.Length && chunk != dest
    requires b < Nblocks(p.sourcesize, p.blocksize)
    requires BlockAt(chunk[..], p, s, b, c) && InTable(chunk[..], p, b, c.start)
    modifies dest
    ensures var o, n := Offset(p.blocksize, b), Bsize(p.sourcesize, p.blocksize, b);
            && r == n && o + n <= |s| && Pipeline.LeftForDelta(p.filters) < |c.st|
            && dest[o..o + n] == c.st[Pipeline.LeftForDelta(p.filters)]
            && forall k :: 0 <= k < dest.Length && !(o <= k < o + n) ==> dest[k] == old(dest[k])
  {
    hide Pipeline.Stages, BloscBlock.ReadSplits, Pipeline.Known, Offset, Bsize, Nblocks, IsLeftover, Delta.WordSize, BloscBlock.Splits;
    hide Pipeline.LeftForDelta, BloscBlock.Divides, GoodParams, BlockAt, InTable, Pipeline.KeepsAll, Pipeline.Ordered, SplitDivides, Undoable;
    var sp := FindBlock(p, chunk, b, s, c);
    assert chunk[..][sp..] == chunk[sp..];
    var tmp, tmp2, tmp4 := new byte[p.blocksize], new byte[p.blocksize], new byte[p.blocksize];
    var offset := Offset(p.blocksize, b);
    var bsize, leftover := Bsize(p.sourcesize, p.blocksize, b), IsLeftover(p.sourcesize, p.blocksize, b);
    r := BloscBlock.DecodeToDelta(p.filters, p.typesize, p.split, bsize, leftover, chunk, sp, dest, offset, tmp, tmp2, tmp4, s, c.st);
  }

  /** What the blocks of the chunk are to the job. */
  lemma BlocksOfJob(p: Params, nthreads: nat, d: seq<byte>, s: seq<byte>, bl: seq<Coded>, b: nat)
    requires GoodParams(p) && Undoable(p) && Holds(d, p, s, bl) && |s| == p.sourcesize && b < Nblocks(p.sourcesize, p.blocksize)
    ensures var job := RestoreJob(p, nthreads);
            && job.blocksize > 0 && b < PD.Nblocks(job) && b < |bl| && |bl[b].st| == MAX_FILTERS + 1
            && Differences(p, bl)(b) == bl[b].st[Pipeline.LeftForDelta(p.filters)]
            && PB.From(job, b) == Offset(p.blocksize, b) && PD.Bsize(job, b) == Bsize(p.sourcesize, p.blocksize, b)
            && (!job.delta ==> Differences(p, bl)(b) == PB.Block(job, s, b))
            && (job.delta ==>
                  && Pipeline.Filtered(DELTA, p.typesize, s, PB.From(job, b), PB.Block(job, s, b), Differences(p, bl)(b))
                  && PD.Bsize(job, b) % Delta.WordSize(p.typesize) == 0
                  && (b == 0 ==> Delta.WordSize(p.typesize) <= PD.Bsize(job, 0)))
    ensures BlockAt(d, p, s, b, bl[b]) && InTable(d, p, b, bl[b].start)
  {
    hide Pipeline.Stages, Pipeline.Filtered, BloscBlock.ReadSplits, Bsize, Nblocks, IsLeftover, Delta.WordSize, Offset, InTable;
    hide Pipeline.LeftForDelta, Pipeline.Ordered, BlockAt, BlockSplits, BlockPiece, Lossless;
    assert BlockAt(d, p, s, b, bl[b]) && InTable(d, p, b, bl[b].start);
    BlockMeans(d, p, s, b, bl[b]);
    BlockUndoable(p, b);
    HasStages(p, bl[b].st);
    if DELTA in p.filters {
      Pipeline.DeltaStage(p.filters, p.typesize, s, Offset(p.blocksize, b), bl[b].st);
    }
  }

  lemma RestoreJobIsGood(p: Params, nthreads: nat)
    requires GoodParams(p) && nthreads > 0
    ensures var job := RestoreJob(p, nthreads);
            && job.sourcesize == p.sourcesize && (job.delta <==> DELTA in p.filters)
            && PD.GoodJob(job) && PD.ErrorFree(job) && p.blocksize > 0 && p.typesize > 0
            && PD.Nblocks(job) == Nblocks(p.sourcesize, p.blocksize)
  {
  }

  /** The master and its threads have come as far as `tr`, and the destination is what the
      trace says. */
  ghost predicate Underway(p: Params, nthreads: nat, s: seq<byte>, bl: seq<Coded>, tr: PB.Trace, dest: array<byte>)
    reads dest
  {
    && GoodParams(p) && nthreads > 0 && |s| == p.sourcesize <= dest.Length && dest[..|s|] == tr.x
    && PB.Happens(RestoreJob(p, nthreads), s, Differences(p, bl), tr)
  }

  /** Decoding a block, as far as the delta filter. */
  method CarryOutDecode(p: Params, nthreads: nat, state: PD.State, t: nat, b: nat, chunk: array<byte>, dest: array<byte>,
                        ghost s: seq<byte>, ghost bl: seq<Coded>)
    requires GoodParams(p) && SplitDivides(p) && Undoable(p) && Holds(chunk[..], p, s, bl) && chunk != dest
    requires nthreads > 0 && |s| == p.sourcesize <= dest.Length && b < Nblocks(p.sourcesize, p.blocksize)
    requires t < |state.workers| && state.workers[t].pc == PD.Decode(b) && PD.GoodJob(RestoreJob(p, nthreads))
    modifies dest
    ensures PB.Effect(RestoreJob(p, nthreads), s, Differences(p, bl), state, t, old(dest[..|s|]), dest[..|s|])
    ensures forall k :: |s| <= k < dest.Length ==> dest[k] == old(dest[k])
  {
    hide *;
    var job := RestoreJob(p, nthreads);
    ghost var diff, x := Differences(p, bl), dest[..|s|];
    RestoreJobIsGood(p, nthreads);
    BlocksOfJob(p, nthreads, chunk[..], s, bl, b);
    var r := DecodeInThread(p, chunk, b, dest, s, bl[b]);
    ghost var y := dest[..|s|];
    PB.BlockWritten(job, x, y, b);
    assert y[PB.From(job, b)..PB.From(job, b) + r] == dest[PB.From(job, b)..PB.From(job, b) + r];
    PB.DecodeHasEffect(job, s, diff, state, t, x, y, b);
  }

  /** Undoing the delta filter of a block. */
  method CarryOutUndo(p: Params, nthreads: nat, state: PD.State, t: nat, b: nat, chunk: array<byte>, dest: array<byte>,
                      ghost s: seq<byte>, ghost bl: seq<Coded>)
    requires GoodParams(p) && Undoable(p) && Holds(chunk[..], p, s, bl) && chunk != dest
    requires nthreads > 0 && |s| == p.sourcesize <= dest.Length && PD.GoodJob(RestoreJob(p, nthreads)) && DELTA in p.filters
    requires 0 < Nblocks(p.sourcesize, p.blocksize) && b < Nblocks(p.sourcesize, p.blocksize) == PD.Nblocks(RestoreJob(p, nthreads))
    requires t < |state.workers| && (state.workers[t].pc == PD.Undo(b) || (state.workers[t].pc == PD.Enter(b) && b == 0 && state.refNotInit))
    requires PB.Block(RestoreJob(p, nthreads), dest[..|s|], b) == Differences(p, bl)(b)
    requires b > 0 ==> PB.Block(RestoreJob(p, nthreads), dest[..|s|], 0) == PB.Block(RestoreJob(p, nthreads), s, 0)
    modifies dest
    ensures PB.Effect(RestoreJob(p, nthreads), s, Differences(p, bl), state, t, old(dest[..|s|]), dest[..|s|])
    ensures forall k :: |s| <= k < dest.Length ==> dest[k] == old(dest[k])
  {
    hide *;
    var job := RestoreJob(p, nthreads);
    ghost var diff, x := Differences(p, bl), dest[..|s|];
    RestoreJobIsGood(p, nthreads);
    BlocksOfJob(p, nthreads, chunk[..], s, bl, b);
    PB.UndoBlock(job, p.typesize, dest, b, s, diff);
    PB.UndoHasEffect(job, s, diff, state, t, x, dest[..|s|], b);
  }

  /** The step of thread `t`, whichever it is, has the effect on the bytes that the model of
      the threads gives it. */
  method CarryOut(p: Params, nthreads: nat, state: PD.State, t: nat, chunk: array<byte>, dest: array<byte>,
                  ghost s: seq<byte>, ghost bl: seq<Coded>, ghost tr: PB.Trace)
    requires GoodParams(p) && SplitDivides(p) && Undoable(p) && Holds(chunk[..], p, s, bl) && chunk != dest
    requires Underway(p, nthreads, s, bl, tr, dest) && tr.s == state && PD.Enabled(RestoreJob(p, nthreads), state, t)
    modifies dest
    ensures Underway(p, nthreads, s, bl, PB.Next(tr, t, PD.Do(RestoreJob(p, nthreads), state, t), dest[..|s|]), dest)
    ensures forall k :: |s| <= k < dest.Length ==> dest[k] == old(dest[k])
  {
    hide GoodParams, SplitDivides, Undoable, Holds, PD.Do, PB.Block, PD.Nblocks, PD.Inv, PB.Means, Differences, Nblocks, PB.Effect;
    var job := RestoreJob(p, nthreads);
    ghost var diff, x := Differences(p, bl), dest[..|s|];
    RestoreJobIsGood(p, nthreads);
    PB.EveryTraceMeans(job, s, diff, tr);
    match state.workers[t].pc {
      case Decode(b) =>
        PB.OwnBlock(job, s, diff, state, t, x, b);
        CarryOutDecode(p, nthreads, state, t, b, chunk, dest, s, bl);
      case Undo(b) =>
        PB.OwnBlock(job, s, diff, state, t, x, b);
        CarryOutUndo(p, nthreads, state, t, b, chunk, dest, s, bl);
      case Enter(b) =>
        PB.OwnBlock(job, s, diff, state, t, x, b);
        if b == 0 && state.refNotInit {
          CarryOutUndo(p, nthreads, state, t, b, chunk, dest, s, bl);
        } else {
          PB.NoEffect(job, s, diff, state, t, x);
        }
      case _ =>
        PB.NoEffect(job, s, diff, state, t, x);
    }
  }

  /** Whose turn it is: the thread the schedule names if it can step, and otherwise the
      first that can. */
  method Choose(job: PD.Job, state: PD.State, wish: nat) returns (t: nat)
    requires exists u: nat :: PD.Enabled(job, state, u)
    ensures PD.Enabled(job, state, t)
  {
    hide PD.Do;
    t := wish;
    if !PD.Enabled(job, state, t) {
      t := 0;
      while !PD.Enabled(job, state, t)
        invariant forall u: nat :: u < t ==> !PD.Enabled(job, state, u)
        decreases |state.workers| - t
      {
        ghost var u: nat :| PD.Enabled(job, state, u);
        t := t + 1;
      }
    }
  }

  /** Is somebody not done? */
  method SomebodyLeft(state: PD.State) returns (left: bool)
    ensures left <==> !PD.AllDone(state)
  {
    for t := 0 to |state.workers|
      invariant forall u: nat :: u < t ==> state.workers[u].pc == PD.Done
    {
      if state.workers[t].pc != PD.Done {
        return true;
      }
    }
    left := false;
  }

  /** parallel_blosc, decompressing: whatever the schedule, the threads come to an end and
      leave the source. */
  method ParallelDecompress(p: Params, chunk: array<byte>, dest: array<byte>, nthreads: nat, schedule: nat -> nat,
                            ghost s: seq<byte>, ghost bl: seq<Coded>)
    returns (r: nat)
    requires GoodParams(p) && SplitDivides(p) && Undoable(p) && |s| == p.sourcesize <= dest.Length && chunk != dest
    requires Holds(chunk[..], p, s, bl) && PP.InThreads(RestoreJob(p, nthreads))
    modifies dest
    ensures r == p.sourcesize && dest[..r] == s
    ensures forall k :: |s| <= k < dest.Length ==> dest[k] == old(dest[k])
  {
    hide GoodParams, SplitDivides, Undoable, Holds, PD.Do, PD.Enabled, PD.AllDone, PD.Init, PP.Beginning;
    var job := RestoreJob(p, nthreads);
    RestoreJobIsGood(p, nthreads);
    var state := PP.Beginning(job);
    ghost var diff := Differences(p, bl);
    ghost var tr := PB.Begun(state, dest[..|s|]);
    PP.BeginningIsStart(job);
    assert PB.Happens(job, s, diff, tr);
    var n: nat := 0;
    var left := SomebodyLeft(state);
    while left
      invariant tr.s == state && Underway(p, nthreads, s, bl, tr, dest) && (left <==> !PD.AllDone(state))
      invariant forall k :: |s| <= k < dest.Length ==> dest[k] == old(dest[k])
      decreases WorkLeft(job, s, diff, tr)
    {
      SomebodyCanStep(job, s, diff, tr);
      var t := Choose(job, state, schedule(n));
      ghost var before := tr;
      CarryOut(p, nthreads, state, t, chunk, dest, s, bl, tr);
      state := PD.Do(job, state, t);
      tr := PB.Next(tr, t, state, dest[..|s|]);
      WorkIsDone(job, s, diff, before, t, state, dest[..|s|]);
      n := n + 1;
      left := SomebodyLeft(state);
    }
    PB.ErrorFreeRunRestores(job, s, diff, tr);
    r := state.output;
  }

  ghost function WorkLeft(job: PD.Job, s: seq<byte>, diff: nat -> seq<byte>, tr: PB.Trace): nat
    requires PD.GoodJob(job) && |s| == job.sourcesize && PB.Happens(job, s, diff, tr)
  {
    PB.RunOfTrace(job, s, diff, tr);
    PP.WorkLeft(job, PB.RunOf(tr))
  }

  lemma WorkIsDone(job: PD.Job, s: seq<byte>, diff: nat -> seq<byte>, tr: PB.Trace, t: nat, state: PD.State, x: seq<byte>)
    requires PD.GoodJob(job) && |s| == job.sourcesize && PB.Happens(job, s, diff, tr) && PD.Enabled(job, tr.s, t)
    requires state == PD.Do(job, tr.s, t) && PB.Happens(job, s, diff, PB.Next(tr, t, state, x))
    ensures WorkLeft(job, s, diff, PB.Next(tr, t, state, x)) < WorkLeft(job, s, diff, tr)
  {
    hide PD.Do, PD.Enabled, PB.Happens;
    PB.RunOfTrace(job, s, diff, tr);
    PB.RunOfTrace(job, s, diff, PB.Next(tr, t, state, x));
    PP.EveryRunEnds(job, PB.RunOf(tr), t);
  }

  lemma SomebodyCanStep(job: PD.Job, s: seq<byte>, diff: nat -> seq<byte>, tr: PB.Trace)
    requires PD.GoodJob(job) && PD.ErrorFree(job) && PP.InThreads(job) && |s| == job.sourcesize
    requires PB.Happens(job, s, diff, tr) && !PD.AllDone(tr.s)
    ensures exists t: nat :: PD.Enabled(job, tr.s, t)
  {
    hide PD.Enabled, PB.Happens;
    PB.RunOfTrace(job, s, diff, tr);
    PP.GoodSplitsDoNotHang(job);
    var t: nat :| t < |tr.s.workers| && tr.s.workers[t].pc != PD.Done;
    var u := PP.NoDeadlock(job, PB.RunOf(tr), t);
  }

  /** blosc_run_decompression_with_context with do_job, for any number of threads: a chunk
      that holds a source gives it back, if there is room for it. */
  method Decompress(chunk: array<byte>, dest: array<byte>, destsize: nat, nthreads: nat, schedule: nat -> nat,
                    ghost r: nat, ghost q: Params, ghost s: seq<byte>, ghost bl: seq<Coded>)
    returns (n: int)
    requires GoodParams(q) && SplitDivides(q) && (q.extended || Classic(q)) && (!q.memcpyed ==> Undoable(q))
    requires |s| == q.sourcesize && IsChunk(chunk[..], r, q, s, bl) && HeaderLength(q.extended) <= chunk.Length
    requires chunk != dest && destsize <= dest.Length
    modifies dest
    ensures n == if |s| <= destsize then |s| else -1
    ensures n >= 0 ==> dest[..n] == s
    ensures forall k :: |s| <= k < dest.Length ==> dest[k] == old(dest[k])
  {
    hide Holds, Undoable, SplitDivides, WriteLE32, Flags, FilterBytes, HeaderBase, PP.InThreads;
    if q.memcpyed {
      BaseRoundTrip(q, chunk[..]);
    } else {
      HeaderRoundTrip(q, chunk[..]);
    }
    var p := ReadHeader(chunk[..]);
    if p.sourcesize <= destsize && !p.memcpyed && PP.InThreads(RestoreJob(p, nthreads)) {
      n := ParallelDecompress(p, chunk, dest, nthreads, schedule, s, bl);
    } else {
      n := BloscChunk.Decompress(chunk, dest, destsize, r, q, s, bl);
    }
  }
}
