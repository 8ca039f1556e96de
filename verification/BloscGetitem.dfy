/** Random access: _blosc_getitem (c-blosc2/blosc/blosc.c:1705-1823). */
module BloscGetitem {
  import opened Bytes
  import opened Arithmetic
  import opened LittleEndian
  import opened BlockLayout
  import opened BloscHeader
  import opened BloscBlock
  import opened BloscChunk
  import opened Pipeline
  import opened Filters
  import Shuffle
  import Delta

  /** Without the delta filter it does not matter where in the chunk a block lies. */
  lemma AnyOffset(filters: seq<nat>, ts: nat, ref: seq<byte>, offset: nat, st: seq<seq<byte>>)
    requires ts > 0 && DELTA !in filters && Stages(filters, ts, ref, offset, st)
    ensures Stages(filters, ts, ref, 0, st)
  {
    hide BitShuffled, Shuffle.Shuffled;
    forall i | 0 <= i < |st| - 1
      ensures Filtered(filters[i], ts, ref, 0, st[i], st[i + 1])
    {
      assert Filtered(filters[i], ts, ref, offset, st[i], st[i + 1]);
    }
  }

  /** The call of blosc_d: block `b` goes to the beginning of a buffer of its own. */
  method FetchBlock(p: Params, chunk: array<byte>, b: nat, tmp2: array<byte>,
                    tmp: array<byte>, tmp3: array<byte>, tmp4: array<byte>, ghost s: seq<byte>, ghost c: Coded)
    returns (r: int)
    requires GoodParams(p) && SplitDivides(p) && Undoable(p) && |s| == p.sourcesize && DELTA !in p.filters
    requires chunk != tmp2 && Scratch(p, tmp, tmp3, tmp4, chunk, tmp2) && p.blocksize <= tmp2.Length
    requires b < Nblocks(p.sourcesize, p.blocksize)
    requires BlockAt(chunk[..], p, s, b, c) && InTable(chunk[..], p, b, c.start)
    modifies tmp2, tmp, tmp3, tmp4
    ensures var o, n := Offset(p.blocksize, b), Bsize(p.sourcesize, p.blocksize, b);
            r == n <= tmp2.Length && o + n <= |s| && tmp2[..n] == s[o..o + n]
  {
    hide Stages, ReadSplits, Known, Offset, Bsize, Nblocks, IsLeftover, Delta.WordSize, Splits, LeftForDelta;
    hide Divides, GoodParams, BlockAt, InTable, KeepsAll, Ordered, SplitDivides, Undoable;
    var sp := FindBlock(p, chunk, b, s, c);
    assert chunk[..][sp..] == chunk[sp..];
    var bsize := Bsize(p.sourcesize, p.blocksize, b);
    ghost var offset := Offset(p.blocksize, b);
    AnyOffset(p.filters, p.typesize, s, offset, c.st);
    r := DecompressBlock(p.filters, p.typesize, p.split, bsize, IsLeftover(p.sourcesize, p.blocksize, b),
                         chunk, sp, tmp2, 0, tmp, tmp3, tmp4, s, c.st);
    assert tmp2[..bsize] == tmp2[0..0 + bsize];
  }

  /** The chunk `d` has the bytes of `s` as they are, or in blocks that can be fetched one
      by one. */
  ghost predicate Gives(d: seq<byte>, p: Params, s: seq<byte>, bl: seq<Coded>)
    requires GoodParams(p)
  {
    if p.memcpyed then |d| >= MAX_OVERHEAD + |s| && d[MAX_OVERHEAD..MAX_OVERHEAD + |s|] == s
    else Undoable(p) && DELTA !in p.filters && Holds(d, p, s, bl)
  }

  function Clamp(x: int, lo: int, hi: int): int {
    if x < lo then lo else if x > hi then hi else x
  }

  /** _blosc_getitem: items `start` to `start + nitems` of a chunk, the same as of what
      the whole chunk decompresses to; -1 if they are not all there. */
  method GetItem(chunk: array<byte>, start: int, nitems: nat, dest: array<byte>,
                 ghost r: nat, ghost q: Params, ghost s: seq<byte>, ghost bl: seq<Coded>)
    returns (n: int)
    requires GoodParams(q) && SplitDivides(q) && (q.extended || Classic(q))
    requires !q.memcpyed ==> Undoable(q) && DELTA !in q.filters
    requires |s| == q.sourcesize && IsChunk(chunk[..], r, q, s, bl) && HeaderLength(q.extended) <= chunk.Length
    requires chunk != dest && nitems * q.typesize <= dest.Length
    modifies dest
    ensures if 0 <= start && (start + nitems) * q.typesize <= |s|
            then n == nitems * q.typesize && dest[..n] == s[start * q.typesize..(start + nitems) * q.typesize]
            else n == -1
  {
    hide Holds, Undoable, WriteLE32, Flags, FilterBytes, HeaderBase, Offset, Bsize, Nblocks, IsLeftover;
    if q.memcpyed {
      BaseRoundTrip(q, chunk[..]);
    } else {
      HeaderRoundTrip(q, chunk[..]);
    }
    var p := ReadHeader(chunk[..]);
    var stop := start + nitems;
    ItemsAdd(start, nitems, p.typesize);
    if start < 0 || start * p.typesize > p.sourcesize {
      return -1;
    }
    if stop * p.typesize > p.sourcesize {
      return -1;
    }
    var tmp, tmp2, tmp3, tmp4 :=
      new byte[p.blocksize], new byte[p.blocksize], new byte[p.blocksize], new byte[p.blocksize];
    n := CopyItems(p, chunk, start * p.typesize, stop * p.typesize, dest, tmp2, tmp, tmp3, tmp4, s, bl);
  }

  lemma ItemsAdd(start: int, nitems: nat, ts: nat)
    ensures (start + nitems) * ts == start * ts + nitems * ts && nitems * ts >= 0
    ensures 0 <= start ==> 0 <= start * ts
  {
  }

  /** The first `n` bytes of what is wanted are there. */
  ghost predicate Have(d: seq<byte>, s: seq<byte>, lo: nat, n: nat) {
    n <= |d| && lo + n <= |s| && d[..n] == s[lo..lo + n]
  }

  lemma HaveMore(s: seq<byte>, lo: nat, have: nat, n: nat, d: seq<byte>, d': seq<byte>)
    requires Have(d, s, lo, have) && lo + have + n <= |s| && have + n <= |d| == |d'|
    requires d'[have..have + n] == s[lo + have..lo + have + n]
    requires forall k :: 0 <= k < |d| && !(have <= k < have + n) ==> d'[k] == d[k]
    ensures Have(d', s, lo, have + n)
  {
    assert d'[..have] == d[..have];
    assert d'[..have + n] == d'[..have] + d'[have..have + n];
    SliceConcat(s, lo, lo + have, lo + have + n);
  }

  lemma HaveAll(d: seq<byte>, s: seq<byte>, lo: nat, n: nat)
    ensures Have(d, s, lo, n) ==> n <= |d| && lo + n <= |s| && d[..n] == s[lo..lo + n]
    ensures lo <= |s| ==> Have(d, s, lo, 0)
  {
  }

  lemma ChunkHasBlock(p: Params, d: seq<byte>, s: seq<byte>, bl: seq<Coded>, b: nat)
    requires GoodParams(p) && b < Nblocks(p.sourcesize, p.blocksize)
    requires Gives(d, p, s, bl)
    ensures p.blocksize > 0 && MAX_OVERHEAD == 16
    ensures p.memcpyed ==> |d| >= MAX_OVERHEAD + |s| && d[MAX_OVERHEAD..MAX_OVERHEAD + |s|] == s
    ensures !p.memcpyed ==>
              && Undoable(p) && DELTA !in p.filters
              && b < |bl| && BlockAt(d, p, s, b, bl[b]) && InTable(d, p, b, bl[b].start)
  {
    hide BlockAt, InTable, Undoable;
  }

  /** Which part of the block at `offset` is wanted, and where in the output it goes. */
  lemma WantedPart(offset: nat, bsize: nat, blocksize: nat, total: nat, lo: nat, hi: nat)
    requires 0 < bsize <= blocksize && lo <= hi <= total && (bsize < blocksize ==> offset + bsize == total)
    ensures var startb, stopb := if lo < offset then 0 else lo - offset, if hi - offset > blocksize then blocksize else hi - offset;
            var have := Clamp(offset, lo, hi) - lo;
            if lo - offset >= blocksize || hi - offset <= 0 then Clamp(offset + bsize, lo, hi) == Clamp(offset, lo, hi)
            else
              && startb <= stopb <= bsize && lo + have == offset + startb
              && Clamp(offset + bsize, lo, hi) - lo == have + stopb - startb <= hi - lo
  {
  }

  /** The bytes `startb` to `stopb` of a block, copied or decoded, to `at`. */
  method CopyPiece(p: Params, chunk: array<byte>, b: nat, startb: nat, stopb: nat, dest: array<byte>, at: nat,
                   tmp2: array<byte>, tmp: array<byte>, tmp3: array<byte>, tmp4: array<byte>, ghost s: seq<byte>, ghost bl: seq<Coded>)
    requires GoodParams(p) && SplitDivides(p) && |s| == p.sourcesize && b < Nblocks(p.sourcesize, p.blocksize)
    requires Gives(chunk[..], p, s, bl)
    requires chunk != dest && chunk != tmp2 && Scratch(p, tmp, tmp3, tmp4, chunk, tmp2) && p.blocksize <= tmp2.Length
    requires dest != tmp && dest != tmp2 && dest != tmp3 && dest != tmp4
    requires startb <= stopb <= Bsize(p.sourcesize, p.blocksize, b) && at + stopb - startb <= dest.Length
    modifies dest, tmp2, tmp, tmp3, tmp4
    ensures Offset(p.blocksize, b) + stopb <= |s|
    ensures dest[..][at..at + stopb - startb] == s[Offset(p.blocksize, b) + startb..Offset(p.blocksize, b) + stopb]
    ensures forall k :: 0 <= k < dest.Length && !(at <= k < at + stopb - startb) ==> dest[k] == old(dest[k])
  {
    hide *;
    ChunkHasBlock(p, chunk[..], s, bl, b);
    BlocksLine(p.sourcesize, p.blocksize, b);
    var offset, m := Offset(p.blocksize, b), stopb - startb;
    if p.memcpyed {
      Memcpy(dest, at, chunk, MAX_OVERHEAD + offset + startb, m);
      SliceInSlice(chunk[..], MAX_OVERHEAD, MAX_OVERHEAD + |s|, offset + startb, offset + stopb);
    } else {
      var r := FetchBlock(p, chunk, b, tmp2, tmp, tmp3, tmp4, s, bl[b]);
      Memcpy(dest, at, tmp2, startb, m);
      PartOfBlock(tmp2[..], s, offset, r, startb, stopb);
    }
  }

  lemma PartOfBlock(t: seq<byte>, s: seq<byte>, offset: nat, n: nat, lo: nat, hi: nat)
    requires lo <= hi <= n <= |t| && offset + n <= |s| && t[..n] == s[offset..offset + n]
    ensures t[lo..hi] == s[offset + lo..offset + hi]
  {
    SliceInSlice(s, offset, offset + n, lo, hi);
    SliceOfSlice(t, lo, hi, n);
  }

  lemma BlocksizePositive(p: Params)
    requires GoodParams(p)
    ensures p.blocksize > 0
  {
  }

  lemma ClampEnds(total: nat, lo: nat, hi: nat)
    requires lo <= hi <= total
    ensures Clamp(0, lo, hi) == lo && Clamp(total, lo, hi) == hi
  {
  }

  /** What is wanted of block `j`, if anything is, goes behind the `have` bytes there are. */
  method CopyOfBlock(p: Params, chunk: array<byte>, j: nat, lo: nat, hi: nat, dest: array<byte>, have: nat,
                     tmp2: array<byte>, tmp: array<byte>, tmp3: array<byte>, tmp4: array<byte>, ghost s: seq<byte>, ghost bl: seq<Coded>)
    returns (m: nat)
    requires GoodParams(p) && SplitDivides(p) && |s| == p.sourcesize && lo <= hi <= |s| && j < Nblocks(p.sourcesize, p.blocksize)
    requires Gives(chunk[..], p, s, bl)
    requires chunk != dest && hi - lo <= dest.Length
    requires chunk != tmp2 && Scratch(p, tmp, tmp3, tmp4, chunk, tmp2) && p.blocksize <= tmp2.Length
    requires dest != tmp && dest != tmp2 && dest != tmp3 && dest != tmp4
    requires have == Clamp(Offset(p.blocksize, j), lo, hi) - lo && Have(dest[..], s, lo, have)
    modifies dest, tmp2, tmp, tmp3, tmp4
    ensures have + m == Clamp(Offset(p.blocksize, j) + Bsize(p.sourcesize, p.blocksize, j), lo, hi) - lo <= hi - lo
    ensures Have(dest[..], s, lo, have + m)
  {
    hide *;
    BlocksizePositive(p);
    BlocksLine(p.sourcesize, p.blocksize, j);
    var offset := Offset(p.blocksize, j);
    WantedPart(offset, Bsize(p.sourcesize, p.blocksize, j), p.blocksize, |s|, lo, hi);
    ClampWithin(offset + Bsize(p.sourcesize, p.blocksize, j), lo, hi);
    var startb, stopb := Window(offset, p.blocksize, lo, hi);
    if startb >= p.blocksize || stopb <= 0 {
      return 0;
    }
    ghost var before := dest[..];
    CopyPiece(p, chunk, j, startb, stopb, dest, have, tmp2, tmp, tmp3, tmp4, s, bl);
    HaveMore(s, lo, have, stopb - startb, before, dest[..]);
    m := stopb - startb;
  }

  /** The part of a block that is between two places, clamped if there is any. */
  method Window(offset: nat, blocksize: nat, lo: nat, hi: nat) returns (startb: int, stopb: int)
    requires 0 < blocksize
    ensures startb >= blocksize || stopb <= 0 <==> lo - offset >= blocksize || hi - offset <= 0
    ensures !(lo - offset >= blocksize || hi - offset <= 0) ==>
              && startb == (if lo < offset then 0 else lo - offset)
              && stopb == (if hi - offset > blocksize then blocksize else hi - offset)
  {
    startb, stopb := lo - offset, hi - offset;
    if startb >= blocksize || stopb <= 0 {
      return;
    }
    if startb < 0 {
      startb := 0;
    }
    if stopb > blocksize {
      stopb := blocksize;
    }
  }

  lemma ClampWithin(x: int, lo: nat, hi: nat)
    requires lo <= hi
    ensures lo <= Clamp(x, lo, hi) <= hi
  {
  }

  /** The loop over the blocks. */
  method CopyItems(p: Params, chunk: array<byte>, lo: nat, hi: nat, dest: array<byte>,
                   tmp2: array<byte>, tmp: array<byte>, tmp3: array<byte>, tmp4: array<byte>, ghost s: seq<byte>, ghost bl: seq<Coded>)
    returns (n: int)
    requires GoodParams(p) && SplitDivides(p) && |s| == p.sourcesize && lo <= hi <= |s|
    requires Gives(chunk[..], p, s, bl)
    requires chunk != dest && hi - lo <= dest.Length
    requires chunk != tmp2 && Scratch(p, tmp, tmp3, tmp4, chunk, tmp2) && p.blocksize <= tmp2.Length
    requires dest != tmp && dest != tmp2 && dest != tmp3 && dest != tmp4
    requires chunk != tmp && chunk != tmp3 && chunk != tmp4
    modifies dest, tmp2, tmp, tmp3, tmp4
    ensures n == hi - lo && dest[..n] == s[lo..hi]
  {
    hide *;
    BlocksizePositive(p);
    var nblocks := Nblocks(p.sourcesize, p.blocksize);
    NoBlocks(p.sourcesize, p.blocksize);
    var ntbytes: nat := 0;
    ghost var seen: nat := 0;
    ClampEnds(|s|, lo, hi);
    ghost var d := chunk[..];
    HaveAll(dest[..], s, lo, 0);
    for j := 0 to nblocks
      invariant chunk[..] == d && ntbytes <= hi - lo
      invariant seen <= |s| && (j == nblocks ==> seen == |s|) && (j < nblocks ==> seen == Offset(p.blocksize, j))
      invariant ntbytes == Clamp(seen, lo, hi) - lo && Have(dest[..], s, lo, ntbytes)
    {
      BlocksLine(p.sourcesize, p.blocksize, j);
      var m := CopyOfBlock(p, chunk, j, lo, hi, dest, ntbytes, tmp2, tmp, tmp3, tmp4, s, bl);
      seen := Offset(p.blocksize, j) + Bsize(p.sourcesize, p.blocksize, j);
      ntbytes := ntbytes + m;
    }
    HaveAll(dest[..], s, lo, ntbytes);
    n := ntbytes;
  }
}
