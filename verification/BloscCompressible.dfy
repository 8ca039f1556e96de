/** Sources that blosc_compress makes smaller (c-blosc2/blosc/blosc.c:1398-1440, with the codec
    of blosclz.c:176-419): those whose blocks are runs of one byte behind the filters. */
module BloscCompressible {
  import opened Bytes
  import opened Arithmetic
  import opened Bits
  import opened BlockLayout
  import opened BloscHeader
  import opened BloscBlock
  import opened BloscChunk
  import opened Pipeline
  import opened Filters
  import Shuffle
  import Bitshuffle
  import Delta
  import BloscLzEncoder
  import BloscLzGreedy
  import BloscLzPeriodic

  /** All bytes are the same. */
  ghost predicate IsRunOf(s: seq<byte>, x: byte) {
    forall k :: 0 <= k < |s| ==> s[k] == x
  }

  // ----- Filters leave runs -----

  lemma TransposedRun(s: seq<byte>, n: nat, m: nat, x: byte)
    requires |s| == n * m && IsRunOf(s, x)
    ensures IsRunOf(Shuffle.Transposed(s, n, m), x)
  {
    hide Shuffle.At;
    forall k | 0 <= k < n * m
      ensures Shuffle.Transposed(s, n, m)[k] == x
    {
      Shuffle.EveryPlace(k, m, n);
      Shuffle.AtFits(n, k % n, m, k / n);
    }
  }

  lemma ShuffledRun(ts: nat, s: seq<byte>, x: byte)
    requires ts > 0 && IsRunOf(s, x)
    ensures IsRunOf(Shuffle.Shuffled(ts, s), x)
  {
    hide Shuffle.Transposed;
    var n := Shuffle.Elements(ts, |s|);
    Shuffle.ElementsMake(ts, |s|);
    TransposedRun(s[..n * ts], n, ts, x);
  }

  lemma BitShuffledZeros(ts: nat, s: seq<byte>, d: seq<byte>)
    requires ts > 0 && IsRunOf(s, 0) && BitShuffled(ts, s, d) && Lossless(ts, |s|)
    ensures IsRunOf(d, 0)
  {
    hide Shuffle.Elements, Shuffle.Remainder, Bitshuffle.BitRows;
    var size := Shuffle.Elements(ts, |s|);
    Shuffle.ElementsMake(ts, |s|);
    if size % 8 == 0 {
      assert s[..size * ts] == s && d[..size * ts] == d;
      ZeroRows(s, size / 8, ts);
      Bitshuffle.ElementsDecideRows(s, d, s, size / 8, ts);
    }
  }

  lemma ZeroRows(s: seq<byte>, rows: nat, es: nat)
    requires IsRunOf(s, 0) && |s| == 8 * rows * es
    ensures Bitshuffle.BitRows(s, s, rows, es)
  {
    hide Shuffle.At, Bit;
    forall q: nat, r: nat, j: nat, k: nat | q < rows && r < 8 && j < es && k < 8
      ensures Bitshuffle.BitMoved(s, s, rows, es, q, r, j, k)
    {
      Shuffle.AtFits(8 * rows, 8 * q + r, es, j);
      Shuffle.AtFits(8 * es, 8 * j + k, rows, q);
      assert 8 * es * rows == 8 * rows * es;
      MaskBits(r);
      MaskBits(k);
    }
  }

  lemma DeltaZeros(ref: seq<byte>, s: seq<byte>, d: seq<byte>, w: nat)
    requires IsRunOf(ref, 0) && IsRunOf(s, 0) && w > 0 && |s| % w == 0
    ensures Delta.DeltaOfFirst(ref, s, d, w) ==> IsRunOf(d, 0)
    ensures Delta.DeltaOfOther(ref, s, d, w) ==> IsRunOf(d, 0)
  {
    hide *;
    if Delta.DeltaOfFirst(ref, s, d, w) {
      Delta.EncodedFirst(ref, s, d, w);
      EncodedZeros(true, ref, s, d, w);
    }
    if Delta.DeltaOfOther(ref, s, d, w) {
      Delta.EncodedOther(ref, s, d, w);
      EncodedZeros(false, ref, s, d, w);
    }
  }

  lemma EncodedZeros(first: bool, ref: seq<byte>, s: seq<byte>, d: seq<byte>, w: nat)
    requires IsRunOf(ref, 0) && IsRunOf(s, 0) && Delta.Encoded(first, ref, s, d, w) && |s| % w == 0
    ensures IsRunOf(d, 0)
  {
    hide Xor;
    XorZero();
    forall k | 0 <= k < |d|
      ensures d[k] == 0
    {
      assert s[k] == 0 && ref[k] == 0 && (first && k >= w ==> ref[k - w] == 0);
    }
  }

  lemma XorZero()
    ensures Xor(0, 0) == 0
  {
    hide Bit, Xor;
    forall k | 0 <= k < 8
      ensures Bit(Xor(0, 0), k) <==> Bit(0, k)
    {
      XorBit(0, 0, k);
      MaskBits(k);
    }
    BitsDecide(Xor(0, 0), 0);
  }

  /** Whatever the filters, a block of zeros is one behind them, if they drop nothing. */
  lemma {:induction false} ZerosStay(filters: seq<nat>, ts: nat, ref: seq<byte>, offset: nat, st: seq<seq<byte>>, i: nat)
    requires ts > 0 && Stages(filters, ts, ref, offset, st) && i < |st|
    requires IsRunOf(ref, 0) && IsRunOf(st[0], 0) && KeepsAll(filters, ts, |st[0]|)
    ensures IsRunOf(st[i], 0)
  {
    hide BitShuffled, Shuffle.Shuffled, Lossless, Delta.DeltaOfFirst, Delta.DeltaOfOther, Delta.WordSize, IsRunOf;
    if i > 0 {
      ZerosStay(filters, ts, ref, offset, st, i - 1);
      StagesSize(filters, ts, ref, offset, st, i - 1);
      var f := filters[i - 1];
      assert Filtered(f, ts, ref, offset, st[i - 1], st[i]) && f in filters;
      if f == SHUFFLE {
        ShuffledRun(ts, st[i - 1], 0);
      } else if f == BITSHUFFLE {
        BitShuffledZeros(ts, st[i - 1], st[i]);
      } else if f == DELTA {
        DeltaZeros(ref, st[i - 1], st[i], Delta.WordSize(ts));
      }
    }
  }

  /** The shuffle leaves a run of any byte. */
  lemma {:induction false} RunsStay(filters: seq<nat>, ts: nat, ref: seq<byte>, offset: nat, st: seq<seq<byte>>, i: nat, x: byte)
    requires ts > 0 && Stages(filters, ts, ref, offset, st) && i < |st|
    requires IsRunOf(st[0], x) && BITSHUFFLE !in filters && DELTA !in filters
    ensures IsRunOf(st[i], x)
  {
    hide BitShuffled, Shuffle.Shuffled, IsRunOf;
    if i > 0 {
      RunsStay(filters, ts, ref, offset, st, i - 1, x);
      var f := filters[i - 1];
      assert Filtered(f, ts, ref, offset, st[i - 1], st[i]) && f in filters;
      if f == SHUFFLE {
        ShuffledRun(ts, st[i - 1], x);
      }
    }
  }

  /** Behind the filters every block is a run of `x`. */
  ghost predicate LeavesRuns(p: Params, s: seq<byte>, x: byte)
    requires GoodParams(p)
  {
    forall b: nat, st: seq<seq<byte>> ::
      b < Nblocks(p.sourcesize, p.blocksize) && Offset(p.blocksize, b) + BlockBytes(p, b) <= |s|
      && Stages(p.filters, p.typesize, s, Offset(p.blocksize, b), st) && |st| == MAX_FILTERS + 1
      && st[0] == s[Offset(p.blocksize, b)..Offset(p.blocksize, b) + BlockBytes(p, b)] ==>
        IsRunOf(st[MAX_FILTERS], x)
  }

  lemma RunLeavesRuns(p: Params, s: seq<byte>, x: byte)
    requires GoodParams(p) && IsRunOf(s, x) && BITSHUFFLE !in p.filters && DELTA !in p.filters
    ensures LeavesRuns(p, s, x)
  {
    hide Stages, BlockBytes, Offset, Nblocks;
    forall b: nat, st: seq<seq<byte>> |
      && b < Nblocks(p.sourcesize, p.blocksize) && Offset(p.blocksize, b) + BlockBytes(p, b) <= |s|
      && Stages(p.filters, p.typesize, s, Offset(p.blocksize, b), st) && |st| == MAX_FILTERS + 1
      && st[0] == s[Offset(p.blocksize, b)..Offset(p.blocksize, b) + BlockBytes(p, b)]
      ensures IsRunOf(st[MAX_FILTERS], x)
    {
      RunsStay(p.filters, p.typesize, s, Offset(p.blocksize, b), st, MAX_FILTERS, x);
    }
  }

  lemma ZerosLeaveRuns(p: Params, s: seq<byte>)
    requires GoodParams(p) && IsRunOf(s, 0) && Undoable(p)
    ensures LeavesRuns(p, s, 0)
  {
    hide Stages, BlockBytes, Offset, Nblocks, KeepsAll, Ordered, Known, Undoable;
    forall b: nat, st: seq<seq<byte>> |
      && b < Nblocks(p.sourcesize, p.blocksize) && Offset(p.blocksize, b) + BlockBytes(p, b) <= |s|
      && Stages(p.filters, p.typesize, s, Offset(p.blocksize, b), st) && |st| == MAX_FILTERS + 1
      && st[0] == s[Offset(p.blocksize, b)..Offset(p.blocksize, b) + BlockBytes(p, b)]
      ensures IsRunOf(st[MAX_FILTERS], 0)
    {
      BlockUndoable(p, b);
      ZerosStay(p.filters, p.typesize, s, Offset(p.blocksize, b), st, MAX_FILTERS);
    }
  }

  // ----- Runs are coded shortly -----

  /** What a run of `n` bytes takes, with its length in four bytes before it. */
  function RunCost(n: nat): nat {
    n / 255 + 25
  }

  /** The level grants the codec what a run of `n` bytes takes. */
  predicate Grants(codec: Codec, n: nat) {
    70 <= n && BloscLzGreedy.MIN_LIMIT <= codec.share(n) && RunCost(n) <= codec.share(n)
  }

  lemma RunSplit(codec: Codec, piece: seq<byte>, x: byte, room: int)
    requires GoodCodec(codec) && |piece| < 0x8000_0000 && IsRunOf(piece, x) && Grants(codec, |piece|)
    requires RunCost(|piece|) + 66 <= room
    ensures 0 < SplitLength(codec, piece, room) <= RunCost(|piece|)
  {
    hide BloscLzGreedy.Parse, BloscLzGreedy.StreamLength;
    var n := |piece|;
    var maxout := if 4 + n > room then room - 4 else n;
    var limit := if codec.share(n) > maxout then maxout else codec.share(n);
    BloscLzPeriodic.RunCompresses(piece, x, codec.level, BloscLzEncoder.Accelerated(codec.accel), limit);
  }

  lemma {:induction false} RunSplits(codec: Codec, s: seq<byte>, x: byte, n: nat, neblock: nat, room: int)
    requires GoodCodec(codec) && neblock < 0x8000_0000 && IsRunOf(s, x) && Grants(codec, neblock) && Pieces(n, neblock) <= |s|
    requires Pieces(n, RunCost(neblock)) + 66 <= room
    ensures 0 <= SplitsLength(codec, s, n, neblock, room) <= Pieces(n, RunCost(neblock))
  {
    hide SplitLength, Grants, RunCost;
    if n > 0 {
      PiecesGrow(n - 1, n, neblock);
      PiecesGrow(n - 1, n, RunCost(neblock));
      RunSplits(codec, s, x, n - 1, neblock, room);
      var before := SplitsLength(codec, s, n - 1, neblock, room);
      RunSplit(codec, s[Pieces(n - 1, neblock)..Pieces(n, neblock)], x, room - before);
    } else {
      SplitsLengthNone(codec, s, neblock, room);
    }
  }

  /** What a block takes: its splits as runs, or the shorter block at the end, which is not
      split, as it is. */
  function BlockCost(p: Params, b: nat): nat
    requires GoodParams(p)
  {
    if IsLeftover(p.sourcesize, p.blocksize, b) then 4 + BlockBytes(p, b)
    else Pieces(BlockSplits(p, b), RunCost(BlockPiece(p, b)))
  }

  /** One split takes its length and its bytes at most. */
  lemma OneSplit(codec: Codec, s: seq<byte>, room: int)
    requires GoodCodec(codec) && 0 < |s| < 0x8000_0000 && 4 + |s| <= room && Pieces(1, |s|) == |s|
    ensures 0 <= SplitsLength(codec, s, 1, |s|, room) <= 4 + |s|
  {
    hide SplitLength, Pieces, SplitsLength;
    SplitsLengthNone(codec, s, |s|, room);
    SplitsLengthStep(codec, s, 0, |s|, room);
    assert s[0..|s|] == s;
    SplitAtMost(codec, s, room);
  }

  lemma SplitAtMost(codec: Codec, piece: seq<byte>, room: int)
    requires GoodCodec(codec) && 0 < |piece| < 0x8000_0000 && 4 + |piece| <= room
    ensures 0 < SplitLength(codec, piece, room) <= 4 + |piece|
  {
    hide BloscLzGreedy.Parse, BloscLzGreedy.StreamLength;
    var share := codec.share(|piece|);
    BloscLzGreedy.ParseFits(piece, codec.level, BloscLzEncoder.Accelerated(codec.accel), if share > |piece| then |piece| else share);
  }

  // ----- Whole chunks -----

  /** The level grants the codec enough for the splits of the blocks. */
  predicate GrantsAll(codec: Codec, p: Params)
    requires GoodParams(p)
  {
    forall b: nat :: b < Nblocks(p.sourcesize, p.blocksize) && !IsLeftover(p.sourcesize, p.blocksize, b) ==> Grants(codec, BlockPiece(p, b))
  }

  lemma RunBlock(codec: Codec, p: Params, s: seq<byte>, x: byte, b: nat, st: seq<seq<byte>>, room: int, r: nat)
    requires GoodParams(p) && b < Nblocks(p.sourcesize, p.blocksize) && LeavesRuns(p, s, x) && GrantsAll(codec, p)
    requires CodedAs(codec, p, s, b, st, room, r) && BlockCost(p, b) + 66 <= room
    ensures 0 < r <= BlockCost(p, b)
  {
    hide Stages, Grants, RunCost, SplitsLength, Offset, Nblocks, IsLeftover, Bsize;
    var last, n, neblock := st[MAX_FILTERS], BlockSplits(p, b), BlockPiece(p, b);
    BlocksLine(p.sourcesize, p.blocksize, b);
    if IsLeftover(p.sourcesize, p.blocksize, b) {
      PiecesOfOne(p, b);
      OneSplit(codec, last, room);
    } else {
      RunSplits(codec, last, x, n, neblock, room);
    }
  }

  lemma PiecesOfOne(p: Params, b: nat)
    requires GoodParams(p) && IsLeftover(p.sourcesize, p.blocksize, b)
    ensures BlockSplits(p, b) == 1 && BlockPiece(p, b) == BlockBytes(p, b) == Pieces(1, BlockPiece(p, b))
  {
  }

  /** What the first `k` blocks take. */
  function CostOf(p: Params, k: nat): nat
    requires GoodParams(p)
  {
    if k == 0 then 0 else CostOf(p, k - 1) + BlockCost(p, k - 1)
  }

  lemma {:induction false} CostGrows(p: Params, j: nat, k: nat)
    requires GoodParams(p) && j <= k
    ensures CostOf(p, j) <= CostOf(p, k)
  {
    hide BlockCost, GoodParams;
    if j < k {
      CostGrows(p, j, k - 1);
    }
  }

  /** The whole chunk. */
  function ChunkCost(p: Params): nat
    requires GoodParams(p)
  {
    TableEnd(p) + CostOf(p, Nblocks(p.sourcesize, p.blocksize))
  }

  lemma {:induction false} RunBlocks(codec: Codec, p: Params, s: seq<byte>, x: byte, bl: seq<Coded>, destsize: nat, k: nat)
    requires GoodParams(p) && LeavesRuns(p, s, x) && GrantsAll(codec, p) && Chained(codec, p, s, bl, destsize)
    requires k <= |bl| && ChunkCost(p) + 66 <= destsize
    ensures EndOf(p, bl, k) <= TableEnd(p) + CostOf(p, k)
  {
    hide CodedAs, GrantsAll, LeavesRuns, TableEnd, BlockCost, Nblocks, EndOf, Chained;
    ChainedAt(codec, p, s, bl, destsize, k);
    if k > 0 {
      RunBlocks(codec, p, s, x, bl, destsize, k - 1);
      CostGrows(p, k, Nblocks(p.sourcesize, p.blocksize));
      RunBlock(codec, p, s, x, k - 1, bl[k - 1].st, destsize - bl[k - 1].start, bl[k - 1].len);
    }
  }

  /** All blocks fit, and the end is no farther than that. */
  lemma RunsFit(codec: Codec, p: Params, s: seq<byte>, x: byte, bl: seq<Coded>, destsize: nat)
    requires GoodParams(p) && LeavesRuns(p, s, x) && GrantsAll(codec, p) && Chained(codec, p, s, bl, destsize)
    requires ChunkCost(p) + 66 <= destsize
    ensures EndOf(p, bl, |bl|) <= ChunkCost(p) && !DoesNotFit(codec, p, s, bl, destsize)
  {
    hide CodedAs, GrantsAll, LeavesRuns, TableEnd, BlockCost, Nblocks, EndOf, Chained;
    var n := Nblocks(p.sourcesize, p.blocksize);
    ChainedFew(codec, p, s, bl, destsize);
    RunBlocks(codec, p, s, x, bl, destsize, |bl|);
    CostGrows(p, |bl|, n);
    if DoesNotFit(codec, p, s, bl, destsize) {
      var b, room := |bl|, destsize - EndOf(p, bl, |bl|);
      var st :| CodedAs(codec, p, s, b, st, room, 0);
      CostGrows(p, b + 1, n);
      RunBlock(codec, p, s, x, b, st, room, 0);
    }
  }

  lemma ChainedAt(codec: Codec, p: Params, s: seq<byte>, bl: seq<Coded>, destsize: nat, k: nat)
    requires GoodParams(p) && Chained(codec, p, s, bl, destsize) && k <= |bl|
    ensures |bl| <= Nblocks(p.sourcesize, p.blocksize)
    ensures if k == 0 then EndOf(p, bl, 0) == TableEnd(p)
            else
              && EndOf(p, bl, k) == bl[k - 1].start + bl[k - 1].len && bl[k - 1].start == EndOf(p, bl, k - 1)
              && CodedAs(codec, p, s, k - 1, bl[k - 1].st, destsize - bl[k - 1].start, bl[k - 1].len)
  {
    hide CodedAs, TableEnd, Nblocks;
  }

  lemma ChainedFew(codec: Codec, p: Params, s: seq<byte>, bl: seq<Coded>, destsize: nat)
    requires GoodParams(p) && Chained(codec, p, s, bl, destsize)
    ensures |bl| <= Nblocks(p.sourcesize, p.blocksize)
  {
    hide CodedAs, EndOf, Nblocks, GoodParams;
  }

  /** A source whose blocks are runs behind the filters is compressed, not copied, even into
      less than it has, if the level grants enough for its splits. */
  method CompressRuns(share: (nat, nat) -> int, extended: bool, clevel: nat, typesize: nat, user: nat,
                      filters: seq<nat>, meta: seq<byte>, s: array<byte>, dest: array<byte>, destsize: nat, ghost x: byte)
    returns (r: int, q: Params)
    requires typesize > 0 && |meta| == MAX_FILTERS && Slots(filters) && Known(filters)
    requires forall i :: 0 <= i < MAX_FILTERS ==> filters[i] < 256
    requires DELTA in filters ==> typesize > 255 || typesize <= s.Length
    requires s != dest && destsize <= dest.Length && destsize < 0x8000_0000 && HeaderLength(extended) + 4 <= dest.Length
    requires 1 <= clevel <= 9 && MIN_BUFFERSIZE <= s.Length <= MAX_BUFFERSIZE
    modifies dest
    ensures GoodParams(q) && q == Settled(extended, clevel, typesize, s.Length, q.blocksize, filters, meta).(memcpyed := q.memcpyed)
    ensures LeavesRuns(q, s[..], x) && GrantsAll(CodecFor(share, clevel, typesize), q) && ChunkCost(q) + 66 <= destsize ==>
              !q.memcpyed && 0 < r <= ChunkCost(q)
  {
    hide Known, IsChunk, Chained, DoesNotFit, EndOf, LeavesRuns, GrantsAll, ChunkCost, FirstBlockFits, SplitBlock;
    ghost var bl;
    r, q, bl := Compress(share, extended, clevel, typesize, user, filters, meta, s, dest, destsize);
    ghost var codec := CodecFor(share, clevel, typesize);
    if LeavesRuns(q, s[..], x) && GrantsAll(codec, q) && ChunkCost(q) + 66 <= destsize {
      RunsFit(codec, q, s[..], x, bl, destsize);
    }
  }

  // ----- That is less than the source -----

  lemma {:induction false} BlocksSave(p: Params, k: nat)
    requires GoodParams(p) && k <= p.sourcesize / p.blocksize && SplitDivides(p)
    requires forall b: nat :: b < Nblocks(p.sourcesize, p.blocksize) && !IsLeftover(p.sourcesize, p.blocksize, b) ==> 128 <= BlockPiece(p, b)
    ensures CostOf(p, k) + 103 * k <= Offset(p.blocksize, k)
  {
    hide BlockPiece, BlockSplits, Pieces, RunCost, GoodParams;
    if k > 0 {
      BlocksSave(p, k - 1);
      BlockSaves(p, k - 1);
    }
  }

  lemma BlockSaves(p: Params, b: nat)
    requires GoodParams(p) && b < p.sourcesize / p.blocksize && SplitDivides(p)
    requires !IsLeftover(p.sourcesize, p.blocksize, b) && b < Nblocks(p.sourcesize, p.blocksize) ==> 128 <= BlockPiece(p, b)
    ensures BlockCost(p, b) + 103 <= p.blocksize && Offset(p.blocksize, b + 1) == Offset(p.blocksize, b) + p.blocksize
  {
    hide RunCost;
    var n, m := BlockSplits(p, b), BlockPiece(p, b);
    BlockDivides(p, b);
    PiecesMake(BlockBytes(p, b), n);
    RunSaves(n, m);
  }

  lemma RunSaves(n: nat, m: nat)
    requires n > 0 && 128 <= m
    ensures Pieces(n, RunCost(m)) + 103 <= n * m
  {
    assert RunCost(m) + 103 <= m;
    ProductGrows(RunCost(m) + 103, m, n);
    ProductGrows(1, n, 103);
    assert (RunCost(m) + 103) * n == RunCost(m) * n + 103 * n;
  }

  /** With splits of 128 bytes or more, such a chunk is smaller than its source. */
  lemma ChunkIsSmaller(p: Params)
    requires GoodParams(p) && SplitDivides(p) && p.blocksize <= p.sourcesize
    requires forall b: nat :: b < Nblocks(p.sourcesize, p.blocksize) && !IsLeftover(p.sourcesize, p.blocksize, b) ==> 128 <= BlockPiece(p, b)
    ensures ChunkCost(p) < p.sourcesize
  {
    hide BlockPiece, BlockSplits, Pieces, RunCost;
    var full, rest := p.sourcesize / p.blocksize, p.sourcesize % p.blocksize;
    assert p.sourcesize == full * p.blocksize + rest;
    BlocksSave(p, full);
    OneBlockAtLeast(p.sourcesize, p.blocksize);
    assert Offset(p.blocksize, full) == full * p.blocksize;
    if rest > 0 {
      assert CostOf(p, full + 1) == CostOf(p, full) + 4 + rest;
    }
  }

  lemma OneBlockAtLeast(total: nat, blocksize: nat)
    requires 0 < blocksize <= total
    ensures 1 <= total / blocksize
  {
  }
}
