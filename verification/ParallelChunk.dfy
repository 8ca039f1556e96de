/** Compression by several threads, from blosc_compress_context on: whatever the schedule, it
    promises what the serial engine promises (c-blosc2/blosc/blosc.c:1398-1440, 1874-2036). */
module ParallelChunk {
  import opened Bytes
  import opened Arithmetic
  import opened LittleEndian
  import opened BlockLayout
  import opened BloscHeader
  import opened BloscChunk
  import opened Filters
  import Pipeline
  import Delta
  import BloscBlock
  import PB = ParallelBytes
  import PC = ParallelCompress
  import PD = ParallelDecompress

  // ----- What a thread makes of a block -----

  /** The bytes that blosc_c leaves in a thread's own buffer are the code of block `b`. */
  ghost predicate CodeOf(code: seq<byte>, p: Params, s: seq<byte>, b: nat, st: seq<seq<byte>>)
    requires GoodParams(p)
  {
    BlockAt(code, p, s, b, BloscChunk.Coded(0, |code|, st))
  }

  /** What comes of block `b`: always its code, unless a filter is unknown. It is as long as
      the codec makes it in the buffer of a thread. */
  ghost predicate BlockCode(codec: BloscBlock.Codec, p: Params, s: seq<byte>, b: nat, c: PC.Coded)
    requires GoodParams(p)
  {
    if Pipeline.Known(p.filters) then c.Coded? && c.b != [] && exists st :: CodeOf(c.b, p, s, b, st) && CodedAs(codec, p, s, b, st, ThreadRoom(p), |c.b|)
    else c == PC.Error(-9)
  }

  /** The size of that buffer. */
  function ThreadRoom(p: Params): nat {
    p.blocksize + p.typesize * 4
  }

  /** The call of blosc_c in t_blosc: the code of a block goes to a buffer of the thread that
      is larger than the block by four bytes for each byte of the type. */
  method CompressInThread(codec: BloscBlock.Codec, p: Params, s: array<byte>, b: nat) returns (c: PC.Coded)
    requires BloscBlock.GoodCodec(codec) && GoodParams(p) && SplitDivides(p) && FirstBlockFits(p) && Pipeline.Slots(p.filters)
    requires s.Length == p.sourcesize && b < Nblocks(p.sourcesize, p.blocksize)
    ensures BlockCode(codec, p, s[..], b, c)
  {
    hide Pipeline.Stages, BloscBlock.ReadSplits, BloscBlock.GoodCodec, Pipeline.Known, Offset, Bsize, Nblocks, IsLeftover;
    hide Delta.WordSize, BloscBlock.Splits, Pipeline.Slots, BloscBlock.Divides, BlockAt, BlockBytes, BlockSplits, BlockPiece;
    hide SplitDivides, FirstBlockFits, BloscBlock.LengthIs;
    var ebsize := ThreadRoom(p);
    var tmp, tmp2, tmp3, tmp4 := new byte[p.blocksize], new byte[ebsize], new byte[p.blocksize], new byte[p.blocksize];
    BlockReady(p, b);
    SplitsFit(p, b);
    var offset, bsize, leftover := Offset(p.blocksize, b), Bsize(p.sourcesize, p.blocksize, b), IsLeftover(p.sourcesize, p.blocksize, b);
    ghost var st;
    var cbytes;
    cbytes, st := BloscBlock.CompressBlock(codec, p.filters, p.typesize, p.split, bsize, leftover, 0, ebsize, s, offset, tmp2, tmp, tmp3, tmp4);
    if cbytes < 0 {
      return PC.Error(cbytes);
    }
    c := PC.Coded.Coded(tmp2[0..cbytes]);
    assert c.b[0..|c.b|] == tmp2[0..cbytes] && s[..][offset..offset + bsize] == s[offset..offset + bsize];
    BlockIsAt(c.b, p, s[..], b, 0, cbytes, st);
    BlockBytesAre(p, b);
    assert CodeOf(c.b, p, s[..], b, st) && CodedAs(codec, p, s[..], b, st, ThreadRoom(p), cbytes);
  }

  /** There is room for the worst code of a block: its bytes, and a length for each split. */
  lemma SplitsFit(p: Params, b: nat)
    requires GoodParams(p)
    ensures BlockSplits(p, b) <= p.typesize
  {
  }

  // ----- A job -----

  /** The job is that of compressing `s`: each block comes out as blosc_c makes it. */
  ghost predicate JobFor(job: PC.Job, codec: BloscBlock.Codec, p: Params, s: seq<byte>, destsize: nat)
    requires GoodParams(p)
  {
    && job.nblocks == Nblocks(p.sourcesize, p.blocksize) && job.start == TableEnd(p) && job.maxbytes == destsize
    && forall b: nat :: b < job.nblocks ==> BlockCode(codec, p, s, b, job.coded(b))
  }

  lemma JobIsGood(job: PC.Job, codec: BloscBlock.Codec, p: Params, s: seq<byte>, destsize: nat)
    requires GoodParams(p) && JobFor(job, codec, p, s, destsize)
    ensures PC.GoodJob(job)
    ensures forall b: nat :: b < job.nblocks ==>
              if Pipeline.Known(p.filters) then job.coded(b).Coded? else job.coded(b) == PC.Error(-9)
  {
    hide CodeOf, Nblocks, TableEnd, GoodParams, Pipeline.Known;
    forall b: nat | b < job.nblocks
      ensures if Pipeline.Known(p.filters) then job.coded(b).Coded? && job.coded(b).b != [] else job.coded(b) == PC.Error(-9)
    {
      assert BlockCode(codec, p, s, b, job.coded(b));
    }
  }

  /** What parallel_blosc returns: the size of the chunk, 0 if it does not fit, and an error
      exactly for an unknown filter. */
  lemma OutcomeOfJob(job: PC.Job, r: PC.Run, codec: BloscBlock.Codec, p: Params, s: seq<byte>, destsize: nat)
    requires GoodParams(p) && JobFor(job, codec, p, s, destsize) && 0 < job.nblocks
    requires PC.Possible(job, r) && PC.AllFinished(r.s)
    ensures PC.Outcome(r.s) < 0 <==> !Pipeline.Known(p.filters)
    ensures PC.Outcome(r.s) > 0 ==> AllFit(codec, p, s, destsize, PC.Outcome(r.s))
    ensures PC.Outcome(r.s) == 0 ==> DoNotFit(codec, p, s, destsize)
    ensures PC.Outcome(r.s) > 0 ==> PC.Outcome(r.s) == r.s.output <= destsize && r.s.giveup > 0
  {
    hide JobFor, GoodParams, Pipeline.Known, PC.Possible, PC.AllFinished, PC.HoldsAll, PC.Tiled, PC.Sum;
    JobIsGood(job, codec, p, s, destsize);
    JobSizes(job, codec, p, s, destsize);
    PC.OutcomeIsScheduleFree(job, r);
    if PC.Fits(job) {
      assert AllFit(codec, p, s, destsize, PC.Outcome(r.s));
    }
    if r.s.giveup > 0 {
      PC.NoGiveupMakesAChunk(job, r);
      assert 0 < job.nblocks && job.coded(0).Coded? by { HoldsCodes(job, r.s.bstarts, r.s.dest); }
    } else if r.s.giveup == 0 {
      var b: nat :| b < job.nblocks && !job.coded(b).Error?;
      assert Pipeline.Known(p.filters) <==> job.coded(b).Coded?;
    } else {
      var b: nat :| b < job.nblocks && job.coded(b) == PC.Error(PC.Outcome(r.s));
      assert Pipeline.Known(p.filters) <==> job.coded(b).Coded?;
    }
  }

  lemma HoldsCodes(job: PC.Job, bstarts: seq<nat>, dest: seq<byte>)
    requires PC.HoldsAll(job, bstarts, dest)
    ensures forall b: nat :: b < job.nblocks ==> job.coded(b).Coded?
  {
  }

  lemma JobSizes(job: PC.Job, codec: BloscBlock.Codec, p: Params, s: seq<byte>, destsize: nat)
    requires GoodParams(p) && JobFor(job, codec, p, s, destsize)
    ensures job.maxbytes == destsize && job.start == TableEnd(p) > 0 && job.nblocks == Nblocks(p.sourcesize, p.blocksize)
    ensures p.sourcesize > 0 ==> job.nblocks > 0
  {
    NoBlocks(p.sourcesize, p.blocksize);
  }

  /** All blocks fit together, and this is the size. */
  ghost predicate AllFit(codec: BloscBlock.Codec, p: Params, s: seq<byte>, destsize: nat, r: int)
    requires GoodParams(p)
  {
    exists job :: JobFor(job, codec, p, s, destsize) && PC.Fits(job) && r == TableEnd(p) + PC.Sum(job, job.nblocks)
  }

  ghost predicate DoNotFit(codec: BloscBlock.Codec, p: Params, s: seq<byte>, destsize: nat)
    requires GoodParams(p)
  {
    exists job :: JobFor(job, codec, p, s, destsize) && !PC.Fits(job)
  }

  // ----- What is in memory -----

  /** The memory after a run: the header as it was, and unless somebody gave up, the blocks
      as the run left them and the block starts in the table. */
  ghost predicate Memory(job: PC.Job, t: PC.State, p: Params, d: seq<byte>, d': seq<byte>)
    requires GoodParams(p)
  {
    && |d'| == |d| >= |t.dest| && HeaderLength(p.extended) <= |d|
    && (forall k :: 0 <= k < HeaderLength(p.extended) ==> d'[k] == d[k])
    && (t.giveup > 0 ==>
          && (forall k :: job.start <= k < |t.dest| ==> d'[k] == t.dest[k])
          && forall b: nat :: b < |t.bstarts| ==> InTable(d', p, b, t.bstarts[b]))
  }

  /** Code can be moved to any place in the chunk. */
  lemma CodeMoved(code: seq<byte>, d: seq<byte>, p: Params, s: seq<byte>, b: nat, st: seq<seq<byte>>, start: nat)
    requires GoodParams(p) && CodeOf(code, p, s, b, st)
    requires start + |code| <= |d| && d[start..start + |code|] == code
    ensures BlockAt(d, p, s, b, BloscChunk.Coded(start, |code|, st))
  {
    hide Pipeline.Stages, BloscBlock.ReadSplits, BlockBytes, BlockSplits, BlockPiece, Offset, GoodParams;
    assert code[0..0 + |code|] == code;
  }

  ghost function StagesOf(codec: BloscBlock.Codec, p: Params, s: seq<byte>, b: nat, c: PC.Coded): (st: seq<seq<byte>>)
    requires GoodParams(p) && Pipeline.Known(p.filters) && BlockCode(codec, p, s, b, c)
    ensures c.Coded? && CodeOf(c.b, p, s, b, st)
  {
    var st :| CodeOf(c.b, p, s, b, st);
    st
  }

  /** Where a run has put block `b`. */
  ghost function Placed(job: PC.Job, t: PC.State, codec: BloscBlock.Codec, p: Params, s: seq<byte>, b: nat): BloscChunk.Coded
    requires GoodParams(p) && Pipeline.Known(p.filters) && b < |t.bstarts| && BlockCode(codec, p, s, b, job.coded(b))
  {
    BloscChunk.Coded(t.bstarts[b], PC.Size(job, b), StagesOf(codec, p, s, b, job.coded(b)))
  }

  lemma BlockIsPlaced(job: PC.Job, t: PC.State, codec: BloscBlock.Codec, p: Params, s: seq<byte>, b: nat, d: seq<byte>, d': seq<byte>)
    requires GoodParams(p) && Pipeline.Known(p.filters) && BlockCode(codec, p, s, b, job.coded(b)) && b < job.nblocks
    requires PC.HoldsAll(job, t.bstarts, t.dest) && t.giveup > 0 && Memory(job, t, p, d, d') && job.start <= t.bstarts[b]
    ensures BlockAt(d', p, s, b, Placed(job, t, codec, p, s, b)) && InTable(d', p, b, Placed(job, t, codec, p, s, b).start)
  {
    hide CodeOf, BlockAt, InTable, GoodParams, Pipeline.Known, BlockCode;
    var code, at := job.coded(b).b, t.bstarts[b];
    assert t.dest[at..at + |code|] == code;
    assert d'[at..at + |code|] == t.dest[at..at + |code|];
    CodeMoved(code, d', p, s, b, StagesOf(codec, p, s, b, job.coded(b)), at);
  }

  /** The blocks of a run in which nobody gave up, as the decompressor finds them. */
  lemma RunHoldsBlocks(job: PC.Job, r: PC.Run, codec: BloscBlock.Codec, p: Params, s: seq<byte>, destsize: nat, d: seq<byte>, d': seq<byte>)
    returns (bl: seq<BloscChunk.Coded>)
    requires GoodParams(p) && JobFor(job, codec, p, s, destsize) && Pipeline.Known(p.filters)
    requires PC.Possible(job, r) && PC.AllFinished(r.s) && r.s.giveup > 0 && Memory(job, r.s, p, d, d')
    ensures Holds(d', p, s, bl) && Before(p, bl, |bl|, r.s.output)
  {
    hide PC.Possible, BlockCode, BlockAt, InTable, GoodParams, Pipeline.Known, Nblocks, TableEnd, PC.Covered, Memory, PC.AllFinished, PC.HoldsAll;
    JobIsGood(job, codec, p, s, destsize);
    PC.NoGiveupMakesAChunk(job, r);
    bl := seq(job.nblocks, b requires 0 <= b < job.nblocks => Placed(job, r.s, codec, p, s, b));
    forall b: nat | b < job.nblocks
      ensures BlockAt(d', p, s, b, bl[b]) && InTable(d', p, b, bl[b].start)
    {
      BlockIsPlaced(job, r.s, codec, p, s, b, d, d');
    }
  }

  /** A complete run in which nobody gave up leaves a chunk, once its size is filled in. */
  lemma RunMakesChunk(job: PC.Job, r: PC.Run, codec: BloscBlock.Codec, p: Params, s: seq<byte>, destsize: nat, d: seq<byte>, d': seq<byte>, e: seq<byte>)
    returns (bl: seq<BloscChunk.Coded>)
    requires GoodParams(p) && !p.memcpyed && JobFor(job, codec, p, s, destsize) && HeaderIs(d, p) && 0 < job.nblocks && destsize <= |d|
    requires PC.Possible(job, r) && PC.AllFinished(r.s) && PC.Outcome(r.s) > 0 && Memory(job, r.s, p, d, d')
    requires SizeFilled(d', e, PC.Outcome(r.s))
    ensures PC.Outcome(r.s) <= destsize && IsChunk(e, PC.Outcome(r.s), p, s, bl)
  {
    hide PC.Possible, PC.AllFinished, GoodParams, JobFor, HeaderIs, Holds, Before, IsChunk, Pipeline.Known, WriteLE32;
    OutcomeOfJob(job, r, codec, p, s, destsize);
    bl := RunHoldsBlocks(job, r, codec, p, s, destsize, d, d');
    HeaderKept(d, d', p);
    FilledCode(d', e, PC.Outcome(r.s), p, s, bl);
  }

  // ----- The copy -----

  /** Threads copying their shares, with output_bytes at 16 to begin with, leave the memory
      `e` and return `r`; without room nothing is copied. */
  ghost predicate Copies(p: Params, s: seq<byte>, destsize: nat, nthreads: nat, d: seq<byte>, r: int, e: seq<byte>)
    requires GoodParams(p) && 0 < nthreads && |s| == p.sourcesize
  {
    if |s| + MAX_OVERHEAD > destsize then r == 0
    else exists tr :: CopyRun(p, s, nthreads, d, r, e, tr)
  }

  ghost function CopyJob(p: Params, nthreads: nat): PD.Job {
    PD.Job(p.sourcesize, p.blocksize, nthreads, false, _ => 0, 0)
  }

  ghost predicate CopyRun(p: Params, s: seq<byte>, nthreads: nat, d: seq<byte>, r: int, e: seq<byte>, tr: PB.Trace)
    requires GoodParams(p) && 0 < nthreads && |s| == p.sourcesize
  {
    && PB.Happens(CopyJob(p, nthreads), s, _ => [], tr) && PD.AllDone(tr.s)
    && |d| >= MAX_OVERHEAD + |tr.x| && r == MAX_OVERHEAD + tr.s.output
    && SizeFilled(d[..MAX_OVERHEAD] + tr.x + d[MAX_OVERHEAD + |tr.x|..], e, r)
  }

  /** Every complete run of copying threads leaves a chunk. */
  lemma CopyMakesChunk(p: Params, s: seq<byte>, destsize: nat, nthreads: nat, d: seq<byte>, r: int, e: seq<byte>)
    requires GoodParams(p) && p.memcpyed && 0 < nthreads && |s| == p.sourcesize && HeaderBase(d, p)
    requires destsize < 0x8000_0000 && Copies(p, s, destsize, nthreads, d, r, e)
    ensures r == if |s| + MAX_OVERHEAD > destsize then 0 else |s| + MAX_OVERHEAD
    ensures r > 0 ==> IsChunk(e, r, p, s, [])
  {
    hide PB.Happens, PD.AllDone, GoodParams, WriteLE32, Flags, IsChunk;
    if |s| + MAX_OVERHEAD <= destsize {
      var tr :| CopyRun(p, s, nthreads, d, r, e, tr);
      CopyJobIsGood(p, nthreads);
      PB.ErrorFreeRunRestores(CopyJob(p, nthreads), s, _ => [], tr);
      var d2 := d[..MAX_OVERHEAD] + s + d[MAX_OVERHEAD + |s|..];
      assert d2[..4] == d[..4] && d2[4..8] == d[4..8] && d2[8..12] == d[8..12];
      assert d2[MAX_OVERHEAD..MAX_OVERHEAD + |s|] == s;
      FilledCopy(d2, e, p, s, []);
    }
  }

  lemma CopyJobIsGood(p: Params, nthreads: nat)
    requires GoodParams(p) && 0 < nthreads
    ensures PD.GoodJob(CopyJob(p, nthreads)) && PD.ErrorFree(CopyJob(p, nthreads))
  {
  }

  // ----- blosc_compress_context with several threads -----

  /** A job of compressing threads that comes to its end, with the memory it leaves. */
  ghost predicate Compresses(codec: BloscBlock.Codec, p: Params, s: seq<byte>, destsize: nat, d: seq<byte>, n: int, d': seq<byte>)
    requires GoodParams(p)
  {
    exists job, r :: JobFor(job, codec, p, s, destsize) && PC.Possible(job, r) && PC.AllFinished(r.s)
                     && Memory(job, r.s, p, d, d') && n == PC.Outcome(r.s)
  }

  /** Marking the chunk as copied, by the master, between the two jobs. */
  ghost predicate Marked(p: Params, d: seq<byte>, d': seq<byte>)
    requires GoodParams(p)
  {
    && |d| == |d'| && (HeaderIs(d, p) ==> HeaderIs(d', p.(memcpyed := true)))
    && forall k :: 0 <= k < |d| && k != 2 ==> d'[k] == d[k]
  }

  /** From the memory `d`, with a header in it, to the result `r` and the memory `e`. */
  ghost predicate Ends(codec: BloscBlock.Codec, p: Params, s: seq<byte>, destsize: nat, nthreads: nat, d: seq<byte>, r: int, e: seq<byte>)
    requires GoodParams(p) && 0 < nthreads && |s| == p.sourcesize
  {
    if p.memcpyed then Copies(p, s, destsize, nthreads, d, r, e)
    else exists n: int, d1: seq<byte> ::
      && Compresses(codec, p, s, destsize, d, n, d1)
      && if n < 0 then r == -1
         else if n > 0 then r == n && SizeFilled(d1, e, n)
         else exists d2: seq<byte> :: Marked(p, d1, d2) && Copies(p.(memcpyed := true), s, destsize, nthreads, d2, r, e)
  }

  /** Whatever the schedules, several threads promise what one thread promises: the result is
      negative exactly for an unknown filter; it is 0 only without room for a copy; and
      otherwise it is the size of a chunk of the source. The chunk is a copy only if it was to
      be one, or the codes of the blocks do not fit together. */
  lemma ParallelContext(codec: BloscBlock.Codec, p: Params, s: seq<byte>, destsize: nat, nthreads: nat, d: seq<byte>, r: int, e: seq<byte>)
    returns (q: Params, bl: seq<BloscChunk.Coded>)
    requires GoodParams(p) && 0 < nthreads && |s| == p.sourcesize && HeaderIs(d, p)
    requires !p.memcpyed ==> p.sourcesize > 0
    requires destsize < 0x8000_0000 && destsize <= |d| && Ends(codec, p, s, destsize, nthreads, d, r, e)
    ensures GoodParams(q) && q == p.(memcpyed := q.memcpyed) && (p.memcpyed ==> q.memcpyed)
    ensures r < 0 <==> !p.memcpyed && !Pipeline.Known(p.filters)
    ensures 0 < r ==> r <= destsize && IsChunk(e, r, q, s, bl)
    ensures r == 0 ==> destsize < p.sourcesize + MAX_OVERHEAD
    ensures !q.memcpyed && 0 <= r ==> AllFit(codec, p, s, destsize, r)
    ensures q.memcpyed && !p.memcpyed && 0 <= r ==> DoNotFit(codec, p, s, destsize)
  {
    hide AllFit, DoNotFit, Pipeline.Known, IsChunk, HeaderIs, Copies, Compresses, SizeFilled;
    q, bl := p.(memcpyed := true), [];
    if p.memcpyed {
      assert q == p;
      HeaderHasBase(d, p);
      CopyMakesChunk(p, s, destsize, nthreads, d, r, e);
    } else {
      var n: int, d1: seq<byte> :| Compresses(codec, p, s, destsize, d, n, d1)
        && if n < 0 then r == -1
           else if n > 0 then r == n && SizeFilled(d1, e, n)
           else exists d2: seq<byte> :: Marked(p, d1, d2) && Copies(p.(memcpyed := true), s, destsize, nthreads, d2, r, e);
      CompressesWell(codec, p, s, destsize, d, n, d1);
      if n > 0 {
        q := p;
        bl := CompressesToChunk(codec, p, s, destsize, d, n, d1, e);
      } else if n == 0 {
        var d2: seq<byte> :| Marked(p, d1, d2) && Copies(q, s, destsize, nthreads, d2, r, e);
        HeaderHasBase(d2, q);
        CopyMakesChunk(q, s, destsize, nthreads, d2, r, e);
      }
    }
  }

  lemma HeaderHasBase(d: seq<byte>, p: Params)
    requires GoodParams(p) && HeaderIs(d, p)
    ensures HeaderBase(d, p)
  {
  }

  lemma CompressesWell(codec: BloscBlock.Codec, p: Params, s: seq<byte>, destsize: nat, d: seq<byte>, n: int, d': seq<byte>)
    requires GoodParams(p) && p.sourcesize > 0 && HeaderIs(d, p) && Compresses(codec, p, s, destsize, d, n, d')
    ensures n < 0 <==> !Pipeline.Known(p.filters)
    ensures n > 0 ==> AllFit(codec, p, s, destsize, n)
    ensures n == 0 ==> DoNotFit(codec, p, s, destsize)
    ensures HeaderIs(d', p)
  {
    hide AllFit, DoNotFit, JobFor, HeaderIs, Pipeline.Known, PC.Possible, PC.AllFinished, GoodParams, InTable;
    var job, r :| JobFor(job, codec, p, s, destsize) && PC.Possible(job, r) && PC.AllFinished(r.s)
                  && Memory(job, r.s, p, d, d') && n == PC.Outcome(r.s);
    JobSizes(job, codec, p, s, destsize);
    OutcomeOfJob(job, r, codec, p, s, destsize);
    HeaderKept(d, d', p);
  }

  lemma CompressesToChunk(codec: BloscBlock.Codec, p: Params, s: seq<byte>, destsize: nat, d: seq<byte>, n: int, d': seq<byte>, e: seq<byte>)
    returns (bl: seq<BloscChunk.Coded>)
    requires GoodParams(p) && !p.memcpyed && p.sourcesize > 0 && HeaderIs(d, p) && destsize <= |d|
    requires Compresses(codec, p, s, destsize, d, n, d') && n > 0 && SizeFilled(d', e, n)
    ensures n <= destsize && IsChunk(e, n, p, s, bl)
  {
    hide JobFor, HeaderIs, PC.Possible, PC.AllFinished, GoodParams, InTable, IsChunk, SizeFilled;
    var job, r :| JobFor(job, codec, p, s, destsize) && PC.Possible(job, r) && PC.AllFinished(r.s)
                  && Memory(job, r.s, p, d, d') && n == PC.Outcome(r.s);
    JobSizes(job, codec, p, s, destsize);
    bl := RunMakesChunk(job, r, codec, p, s, destsize, d, d', e);
  }
}
