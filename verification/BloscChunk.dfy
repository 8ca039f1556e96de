/** A whole chunk: the serial engine, the copy that replaces it when the data does not get
    smaller, and decompression (c-blosc2/blosc/blosc.c:945-1006, 1135-1195, 1398-1440,
    1620-1645). */
module BloscChunk {
  import opened Bytes
  import opened Arithmetic
  import opened LittleEndian
  import opened BlockLayout
  import opened BloscHeader
  import opened BloscBlock
  import opened Pipeline
  import opened Filters

  /** Where the table of block starts ends. */
  function TableEnd(p: Params): nat
    requires p.blocksize > 0
  {
    HeaderLength(p.extended) + 4 * Nblocks(p.sourcesize, p.blocksize)
  }

  function BlockSplits(p: Params, b: nat): (n: nat)
    requires GoodParams(p)
    ensures n > 0
  {
    Splits(p.typesize, p.split, IsLeftover(p.sourcesize, p.blocksize, b))
  }

  function BlockBytes(p: Params, b: nat): nat
    requires GoodParams(p)
  {
    Bsize(p.sourcesize, p.blocksize, b)
  }

  /** A block in a chunk: where its code is, and its bytes before, between and after the
      filters. */
  datatype Coded = Coded(start: nat, len: nat, st: seq<seq<byte>>)

  /** The code `c` in the chunk `d` is that of the `bsize` bytes at `offset` of `s`, in
      `n` splits of `neblock` bytes. */
  ghost predicate CodeAt(d: seq<byte>, filters: seq<nat>, ts: nat, s: seq<byte>, offset: nat, bsize: nat,
                         n: nat, neblock: nat, c: Coded)
    requires ts > 0
  {
    && offset + bsize <= |s| && c.start + c.len <= |d|
    && Stages(filters, ts, s, offset, c.st) && |c.st| == MAX_FILTERS + 1
    && c.st[0] == s[offset..offset + bsize]
    && ReadSplits(d[c.start..c.start + c.len], n, neblock) == Good(c.st[MAX_FILTERS], c.len)
  }

  function Piece(bsize: nat, n: nat): nat
    requires n > 0
  {
    bsize / n
  }

  /** The size of the splits of block `b`. */
  function BlockPiece(p: Params, b: nat): nat
    requires GoodParams(p)
  {
    Piece(BlockBytes(p, b), BlockSplits(p, b))
  }

  /** The code `c` in the chunk `d` is that of block `b` of `s`. */
  ghost predicate BlockAt(d: seq<byte>, p: Params, s: seq<byte>, b: nat, c: Coded)
    requires GoodParams(p)
  {
    CodeAt(d, p.filters, p.typesize, s, Offset(p.blocksize, b), BlockBytes(p, b), BlockSplits(p, b), BlockPiece(p, b), c)
  }

  /** The table has the start of block `b`. */
  ghost predicate InTable(d: seq<byte>, p: Params, b: nat, start: nat)
    requires GoodParams(p)
  {
    var at := HeaderLength(p.extended) + 4 * b;
    at + 4 <= |d| && start < 0x1_0000_0000 && d[at..at + 4] == WriteLE32(start)
  }

  /** The chunk holds the first `n` blocks of the source. */
  ghost predicate HoldsFirst(d: seq<byte>, p: Params, s: seq<byte>, bl: seq<Coded>, n: nat)
    requires GoodParams(p)
  {
    && n <= |bl|
    && forall b: nat :: b < n ==> BlockAt(d, p, s, b, bl[b]) && InTable(d, p, b, bl[b].start)
  }

  ghost predicate Holds(d: seq<byte>, p: Params, s: seq<byte>, bl: seq<Coded>)
    requires GoodParams(p)
  {
    |bl| == Nblocks(p.sourcesize, p.blocksize) && HoldsFirst(d, p, s, bl, |bl|)
  }

  /** What the filters ask of the sizes. */
  predicate FirstBlockFits(p: Params)
    requires GoodParams(p)
  {
    DELTA in p.filters ==> Delta.WordSize(p.typesize) <= BlockBytes(p, 0)
  }

  predicate SplitDivides(p: Params)
    requires GoodParams(p)
  {
    p.split ==> p.blocksize % p.typesize == 0
  }

  lemma BlockDivides(p: Params, b: nat)
    requires GoodParams(p) && SplitDivides(p)
    ensures Divides(p.typesize, p.split, IsLeftover(p.sourcesize, p.blocksize, b), BlockBytes(p, b))
  {
  }

  lemma BlockAtKept(d: seq<byte>, d': seq<byte>, p: Params, s: seq<byte>, b: nat, c: Coded)
    requires GoodParams(p) && BlockAt(d, p, s, b, c) && |d| == |d'|
    requires d'[c.start..c.start + c.len] == d[c.start..c.start + c.len]
    ensures BlockAt(d', p, s, b, c)
  {
    hide Stages, ReadSplits, BlockBytes, BlockSplits, BlockPiece, Offset, GoodParams;
  }

  /** The blocks so far lie between the table and `nt`. */
  ghost predicate Before(p: Params, bl: seq<Coded>, n: nat, nt: nat)
    requires GoodParams(p)
  {
    && n <= |bl| <= Nblocks(p.sourcesize, p.blocksize)
    && forall b: nat :: b < n ==> TableEnd(p) <= bl[b].start && bl[b].start + bl[b].len <= nt
  }

  /** Writing after the blocks, or elsewhere in the table, leaves the blocks. */
  lemma HoldsKept(d: seq<byte>, d': seq<byte>, p: Params, s: seq<byte>, bl: seq<Coded>, n: nat, nt: nat)
    requires GoodParams(p) && HoldsFirst(d, p, s, bl, n) && Before(p, bl, n, nt) && |d| == |d'| && nt <= |d|
    requires forall k :: 0 <= k < |d| && d'[k] != d[k] ==>
               k >= nt || k < HeaderLength(p.extended) || (HeaderLength(p.extended) + 4 * n <= k < TableEnd(p))
    ensures HoldsFirst(d', p, s, bl, n)
  {
    hide BlockAt, GoodParams, WriteLE32;
    forall b: nat | b < n
      ensures BlockAt(d', p, s, b, bl[b]) && InTable(d', p, b, bl[b].start)
    {
      var c := bl[b];
      assert BlockAt(d, p, s, b, c) && InTable(d, p, b, c.start);
      var at := HeaderLength(p.extended) + 4 * b;
      assert d'[at..at + 4] == d[at..at + 4];
      BlockWithin(d, p, s, b, c);
      assert d'[c.start..c.start + c.len] == d[c.start..c.start + c.len];
      BlockAtKept(d, d', p, s, b, c);
    }
  }

  lemma BlockWithin(d: seq<byte>, p: Params, s: seq<byte>, b: nat, c: Coded)
    requires GoodParams(p) && BlockAt(d, p, s, b, c)
    ensures c.start + c.len <= |d|
  {
    hide Stages, ReadSplits, BlockBytes, BlockSplits, BlockPiece, Offset, GoodParams;
  }

  // ----- Compression -----

  /** Room for the header and one entry of the table, which are written without a look at
      destsize. */
  ghost predicate Roomy(p: Params, s: array<byte>, dest: array<byte>, destsize: nat)
    requires GoodParams(p)
  {
    && s != dest && s.Length == p.sourcesize && destsize <= dest.Length && destsize < 0x8000_0000
    && HeaderLength(p.extended) + 4 <= dest.Length && TableEnd(p) < 0x1_0000_0000
  }

  ghost predicate Scratch(p: Params, tmp: array<byte>, tmp2: array<byte>, tmp4: array<byte>, s: array<byte>, dest: array<byte>)
  {
    && p.blocksize <= tmp.Length && p.blocksize <= tmp2.Length && p.blocksize <= tmp4.Length
    && tmp != tmp2 && tmp != tmp4 && tmp2 != tmp4
    && s != tmp && s != tmp2 && s != tmp4 && dest != tmp && dest != tmp2 && dest != tmp4
  }

  lemma OffsetZero(p: Params, b: nat)
    requires GoodParams(p) && b < Nblocks(p.sourcesize, p.blocksize)
    ensures Offset(p.blocksize, b) == 0 <==> b == 0
  {
    ProductGrows(1, b, p.blocksize);
  }

  lemma BlockReady(p: Params, b: nat)
    requires GoodParams(p) && SplitDivides(p) && FirstBlockFits(p) && b < Nblocks(p.sourcesize, p.blocksize)
    ensures var o, n, l := Offset(p.blocksize, b), BlockBytes(p, b), IsLeftover(p.sourcesize, p.blocksize, b);
            && p.typesize > 0 && 0 < n <= p.blocksize && n < 0x8000_0000 && o + n <= p.sourcesize
            && Divides(p.typesize, p.split, l, n) && n == Bsize(p.sourcesize, p.blocksize, b)
            && Splits(p.typesize, p.split, l) == BlockSplits(p, b) && n / Splits(p.typesize, p.split, l) == BlockPiece(p, b)
            && (DELTA in p.filters && o == 0 ==> Delta.WordSize(p.typesize) <= n)
    ensures HeaderLength(p.extended) + 4 * b + 4 <= TableEnd(p)
  {
    hide Delta.WordSize, Divides, Bsize, Nblocks, IsLeftover;
    BlocksLine(p.sourcesize, p.blocksize, b);
    BlockDivides(p, b);
    OffsetZero(p, b);
  }

  lemma BlockIsAt(d: seq<byte>, p: Params, s: seq<byte>, b: nat, nt: nat, r: nat, st: seq<seq<byte>>)
    requires GoodParams(p)
    requires CodeAt(d, p.filters, p.typesize, s, Offset(p.blocksize, b), BlockBytes(p, b), BlockSplits(p, b),
                    BlockPiece(p, b), Coded(nt, r, st))
    ensures BlockAt(d, p, s, b, Coded(nt, r, st))
  {
  }

  lemma TableIs(d: seq<byte>, p: Params, b: nat, nt: nat)
    requires GoodParams(p) && nt < 0x1_0000_0000 && HeaderLength(p.extended) + 4 * b + 4 <= |d|
    requires d[HeaderLength(p.extended) + 4 * b..HeaderLength(p.extended) + 4 * b + 4] == WriteLE32(nt)
    ensures InTable(d, p, b, nt)
  {
  }

  /** Block `b` as the filters leave it, and the length of its code in `room` bytes: `r`, or
      0 if it does not fit. */
  ghost predicate CodedAs(codec: Codec, p: Params, s: seq<byte>, b: nat, st: seq<seq<byte>>, room: int, r: nat)
    requires GoodParams(p)
  {
    var o, n := Offset(p.blocksize, b), BlockBytes(p, b);
    && o + n <= |s| && Stages(p.filters, p.typesize, s, o, st) && |st| == MAX_FILTERS + 1 && st[0] == s[o..o + n]
    && LengthIs(codec, st[MAX_FILTERS], BlockSplits(p, b), BlockPiece(p, b), room, r)
  }

  /** Where the code of the first `b` blocks ends. */
  function EndOf(p: Params, bl: seq<Coded>, b: nat): nat
    requires GoodParams(p) && b <= |bl|
  {
    if b == 0 then TableEnd(p) else bl[b - 1].start + bl[b - 1].len
  }

  /** The blocks lie one behind the other, behind the table, each as long as what the codec
      finds in it. */
  ghost predicate Chained(codec: Codec, p: Params, s: seq<byte>, bl: seq<Coded>, destsize: nat)
    requires GoodParams(p)
  {
    && |bl| <= Nblocks(p.sourcesize, p.blocksize)
    && forall b: nat :: b < |bl| ==>
         && bl[b].start == EndOf(p, bl, b) && bl[b].len > 0
         && CodedAs(codec, p, s, b, bl[b].st, destsize - bl[b].start, bl[b].len)
  }

  /** There is no room for the block that comes behind them. */
  ghost predicate DoesNotFit(codec: Codec, p: Params, s: seq<byte>, bl: seq<Coded>, destsize: nat)
    requires GoodParams(p)
  {
    var b, room := |bl|, destsize - EndOf(p, bl, |bl|);
    b < Nblocks(p.sourcesize, p.blocksize) && exists st :: CodedAs(codec, p, s, b, st, room, 0)
  }

  lemma ChainedMore(codec: Codec, p: Params, s: seq<byte>, bl: seq<Coded>, destsize: nat, c: Coded)
    requires GoodParams(p) && Chained(codec, p, s, bl, destsize) && |bl| < Nblocks(p.sourcesize, p.blocksize)
    requires c.start == EndOf(p, bl, |bl|) && c.len > 0 && CodedAs(codec, p, s, |bl|, c.st, destsize - c.start, c.len)
    ensures Chained(codec, p, s, bl + [c], destsize) && EndOf(p, bl + [c], |bl| + 1) == c.start + c.len
  {
    hide CodedAs, TableEnd, GoodParams, Nblocks, EndOf;
    var more := bl + [c];
    forall b: nat | b < |more|
      ensures more[b].start == EndOf(p, more, b) && more[b].len > 0 && CodedAs(codec, p, s, b, more[b].st, destsize - more[b].start, more[b].len)
    {
      EndOfMore(p, bl, c, b);
      if b < |bl| {
        assert more[b] == bl[b];
      }
    }
    EndOfMore(p, bl, c, |more|);
  }

  lemma EndOfMore(p: Params, bl: seq<Coded>, c: Coded, b: nat)
    requires GoodParams(p) && b <= |bl| + 1
    ensures EndOf(p, bl + [c], b) == if b <= |bl| then EndOf(p, bl, b) else c.start + c.len
  {
    hide TableEnd, GoodParams;
  }

  /** Whether the chunk is to be a copy makes no difference to what the blocks are coded as. */
  lemma CopyFlagIsIgnored(codec: Codec, p: Params, s: seq<byte>, bl: seq<Coded>, destsize: nat)
    requires GoodParams(p)
    ensures GoodParams(p.(memcpyed := true))
    ensures Chained(codec, p, s, bl, destsize) ==> Chained(codec, p.(memcpyed := true), s, bl, destsize)
    ensures DoesNotFit(codec, p, s, bl, destsize) ==> DoesNotFit(codec, p.(memcpyed := true), s, bl, destsize)
  {
    hide CodedAs, EndOf;
    var q := p.(memcpyed := true);
    if Chained(codec, p, s, bl, destsize) {
      forall b: nat | b < |bl|
        ensures bl[b].start == EndOf(q, bl, b) && CodedAs(codec, q, s, b, bl[b].st, destsize - bl[b].start, bl[b].len)
      {
        SameCoded(codec, p, s, bl, b, bl[b].st, destsize - bl[b].start, bl[b].len);
      }
    }
    if DoesNotFit(codec, p, s, bl, destsize) {
      var b, room := |bl|, destsize - EndOf(p, bl, |bl|);
      var st :| CodedAs(codec, p, s, b, st, room, 0);
      SameCoded(codec, p, s, bl, b, st, room, 0);
      NoFit(codec, q, s, bl, destsize, st, room);
    }
  }

  lemma NoFit(codec: Codec, p: Params, s: seq<byte>, bl: seq<Coded>, destsize: nat, st: seq<seq<byte>>, room: int)
    requires GoodParams(p) && |bl| < Nblocks(p.sourcesize, p.blocksize)
    requires room == destsize - EndOf(p, bl, |bl|) && CodedAs(codec, p, s, |bl|, st, room, 0)
    ensures DoesNotFit(codec, p, s, bl, destsize)
  {
    hide CodedAs, EndOf;
  }

  lemma SameCoded(codec: Codec, p: Params, s: seq<byte>, bl: seq<Coded>, b: nat, st: seq<seq<byte>>, room: int, r: nat)
    requires GoodParams(p)
    ensures var q := p.(memcpyed := true);
            && GoodParams(q) && (CodedAs(codec, p, s, b, st, room, r) <==> CodedAs(codec, q, s, b, st, room, r))
            && (b <= |bl| ==> EndOf(p, bl, b) == EndOf(q, bl, b))
  {
    hide Stages, LengthIs, Nblocks, Bsize, IsLeftover, Splits, Piece;
    var q := p.(memcpyed := true);
    assert BlockBytes(p, b) == BlockBytes(q, b) && BlockSplits(p, b) == BlockSplits(q, b) && TableEnd(p) == TableEnd(q);
    assert BlockPiece(p, b) == BlockPiece(q, b);
  }

  lemma ChainedNone(codec: Codec, p: Params, s: seq<byte>, destsize: nat)
    requires GoodParams(p)
    ensures Chained(codec, p, s, [], destsize) && EndOf(p, [], 0) == TableEnd(p)
  {
  }

  /** One round of the loop of serial_blosc: the start and the code of block `b`. */
  method CompressOne(codec: Codec, p: Params, s: array<byte>, b: nat, nt: nat,
                     dest: array<byte>, destsize: nat, tmp: array<byte>, tmp2: array<byte>, tmp4: array<byte>)
    returns (r: int, ghost c: Coded)
    requires GoodCodec(codec) && GoodParams(p) && SplitDivides(p) && FirstBlockFits(p) && Slots(p.filters)
    requires Roomy(p, s, dest, destsize) && !p.memcpyed && Scratch(p, tmp, tmp2, tmp4, s, dest)
    requires b < Nblocks(p.sourcesize, p.blocksize) && TableEnd(p) <= nt < 0x1_0000_0000 && (b > 0 ==> nt <= destsize)
    modifies dest, tmp, tmp2, tmp4
    ensures r < 0 <==> !Known(p.filters)
    ensures r > 0 ==>
              && nt + r <= destsize && c.start == nt && c.len == r
              && BlockAt(dest[..], p, s[..], b, c) && InTable(dest[..], p, b, nt)
    ensures r >= 0 ==> CodedAs(codec, p, s[..], b, c.st, destsize - nt, r)
    ensures forall k :: 0 <= k < dest.Length && dest[k] != old(dest[k]) ==>
              (nt <= k < destsize) || (HeaderLength(p.extended) + 4 * b <= k < HeaderLength(p.extended) + 4 * b + 4)
  {
    hide Stages, ReadSplits, GoodCodec, Known, Offset, Bsize, Nblocks, IsLeftover, Delta.WordSize, Splits, WriteLE32;
    hide Slots, Divides, HeaderLength, TableEnd, GoodParams, BlockAt, InTable, BlockBytes, BlockSplits, BlockPiece;
    hide SplitDivides, FirstBlockFits, LengthIs;
    BlockReady(p, b);
    var at, offset := HeaderLength(p.extended) + 4 * b, Offset(p.blocksize, b);
    var bsize := Bsize(p.sourcesize, p.blocksize, b);
    StoreLE32(dest, at, nt);
    ghost var st;
    r, st := CompressBlock(codec, p.filters, p.typesize, p.split, bsize, IsLeftover(p.sourcesize, p.blocksize, b),
                           nt, destsize, s, offset, dest, tmp, tmp2, tmp4);
    c := Coded(nt, if r > 0 then r else 0, st);
    assert s[..][offset..offset + bsize] == s[offset..offset + bsize];
    BlockBytesAre(p, b);
    if r > 0 {
      assert dest[..][nt..nt + r] == dest[nt..nt + r];
      assert dest[..][at..at + 4] == dest[at..at + 4] == WriteLE32(nt);
      BlockIsAt(dest[..], p, s[..], b, nt, r, st);
      TableIs(dest[..], p, b, nt);
    }
  }

  lemma BlockBytesAre(p: Params, b: nat)
    requires GoodParams(p)
    ensures BlockBytes(p, b) == Bsize(p.sourcesize, p.blocksize, b)
  {
  }

  /** serial_blosc, compressing. */
  method SerialCompress(codec: Codec, p: Params, s: array<byte>, dest: array<byte>, destsize: nat)
    returns (r: int, ghost bl: seq<Coded>)
    requires GoodCodec(codec) && GoodParams(p) && SplitDivides(p) && FirstBlockFits(p) && Slots(p.filters)
    requires Roomy(p, s, dest, destsize) && !p.memcpyed && p.sourcesize > 0
    modifies dest
    ensures r < 0 <==> !Known(p.filters)
    ensures r > 0 ==> r <= destsize && Holds(dest[..], p, s[..], bl) && Before(p, bl, |bl|, r)
    ensures r >= 0 ==> Chained(codec, p, s[..], bl, destsize)
    ensures r > 0 ==> r == EndOf(p, bl, |bl|)
    ensures r == 0 ==> DoesNotFit(codec, p, s[..], bl, destsize)
    ensures forall k :: 0 <= k < dest.Length && dest[k] != old(dest[k]) ==>
              HeaderLength(p.extended) <= k && (k < destsize || k < TableEnd(p))
  {
    hide BlockAt, InTable, GoodCodec, Known, Slots, SplitDivides, FirstBlockFits, HoldsFirst, Before, CodedAs, Chained, EndOf, DoesNotFit;
    BlockLayout.NoBlocks(p.sourcesize, p.blocksize);
    var tmp, tmp2, tmp4 := new byte[p.blocksize], new byte[p.blocksize], new byte[p.blocksize];
    var nt := TableEnd(p);
    var nblocks := Nblocks(p.sourcesize, p.blocksize);
    bl := [];
    HoldsNothing(dest[..], p, s[..], nt);
    ChainedNone(codec, p, s[..], destsize);
    for b := 0 to nblocks
      invariant |bl| == b && TableEnd(p) <= nt < 0x1_0000_0000 && (b > 0 ==> nt <= destsize)
      invariant HoldsFirst(dest[..], p, s[..], bl, b) && Before(p, bl, b, nt)
      invariant b > 0 ==> Known(p.filters)
      invariant Chained(codec, p, s[..], bl, destsize) && nt == EndOf(p, bl, b)
      invariant forall k :: 0 <= k < dest.Length && dest[k] != old(dest[k]) ==>
                  HeaderLength(p.extended) <= k && (k < destsize || k < TableEnd(p))
    {
      ghost var d := dest[..];
      var m;
      ghost var c;
      m, c := CompressOne(codec, p, s, b, nt, dest, destsize, tmp, tmp2, tmp4);
      if m <= 0 {
        if m == 0 {
          NoFit(codec, p, s[..], bl, destsize, c.st, destsize - nt);
        }
        return m, bl;
      }
      HoldsNext(d, dest[..], p, s[..], bl, b, nt, c);
      ChainedMore(codec, p, s[..], bl, destsize, c);
      bl := bl + [c];
      nt := nt + m;
    }
    r := nt;
  }

  lemma HoldsNothing(d: seq<byte>, p: Params, s: seq<byte>, nt: nat)
    requires GoodParams(p)
    ensures HoldsFirst(d, p, s, [], 0) && Before(p, [], 0, nt)
  {
  }

  lemma HoldsNext(d: seq<byte>, d': seq<byte>, p: Params, s: seq<byte>, bl: seq<Coded>, n: nat, nt: nat, c: Coded)
    requires GoodParams(p) && |bl| == n < Nblocks(p.sourcesize, p.blocksize) && |d| == |d'| && TableEnd(p) <= nt <= |d|
    requires HoldsFirst(d, p, s, bl, n) && Before(p, bl, n, nt)
    requires BlockAt(d', p, s, n, c) && InTable(d', p, n, nt) && c.start == nt
    requires forall k :: 0 <= k < |d| && d'[k] != d[k] ==>
               k >= nt || (HeaderLength(p.extended) + 4 * n <= k < HeaderLength(p.extended) + 4 * n + 4)
    ensures HoldsFirst(d', p, s, bl + [c], n + 1) && Before(p, bl + [c], n + 1, nt + c.len)
  {
    hide BlockAt, InTable, GoodParams, Nblocks;
    HoldsKept(d, d', p, s, bl, n, nt);
    forall b: nat | b < n + 1
      ensures BlockAt(d', p, s, b, (bl + [c])[b]) && InTable(d', p, b, (bl + [c])[b].start)
    {
      if b < n {
        assert (bl + [c])[b] == bl[b];
      }
    }
  }

  /** A chunk that is a copy: the data begins where an extended header would have its
      filters. */
  ghost predicate Copied(d: seq<byte>, p: Params, s: seq<byte>)
    requires GoodParams(p)
  {
    && p.memcpyed && |d| >= MAX_OVERHEAD + |s| && HeaderBase(d, p)
    && d[MAX_OVERHEAD..MAX_OVERHEAD + |s|] == s
  }

  /** A chunk of `r` bytes that gives back `s`. */
  ghost predicate IsChunk(d: seq<byte>, r: nat, p: Params, s: seq<byte>, bl: seq<Coded>)
    requires GoodParams(p)
  {
    && 16 <= |d| && d[12..16] == WriteLE32(r % 0x1_0000_0000)
    && if p.memcpyed then Copied(d, p, s) && r == MAX_OVERHEAD + |s| else HeaderIs(d, p) && Holds(d, p, s, bl)
  }

  /** The engine copying blocks, in serial_blosc and, for its share, in t_blosc. */
  method CopyBlocks(total: nat, blocksize: nat, s: array<byte>, sp: nat, dest: array<byte>, dp: nat) returns (copied: nat)
    requires blocksize > 0 && s != dest && sp + total <= s.Length && dp + total <= dest.Length
    modifies dest
    ensures copied == total && dest[..][dp..dp + total] == s[..][sp..sp + total]
    ensures forall k :: 0 <= k < dest.Length && !(dp <= k < dp + total) ==> dest[k] == old(dest[k])
  {
    hide *;
    var nblocks := Nblocks(total, blocksize);
    NoBlocks(total, blocksize);
    copied := 0;
    for b := 0 to nblocks
      invariant copied <= total && (b == nblocks ==> copied == total)
      invariant b < nblocks ==> copied == Offset(blocksize, b)
      invariant forall k :: dp <= k < dp + copied ==> dest[k] == s[k - dp + sp]
      invariant forall k :: 0 <= k < dest.Length && !(dp <= k < dp + copied) ==> dest[k] == old(dest[k])
    {
      BlocksLine(total, blocksize, b);
      var offset, bsize := Offset(blocksize, b), Bsize(total, blocksize, b);
      forall k | dp + offset <= k < dp + offset + bsize {
        dest[k] := s[k - dp + sp];
      }
      copied := copied + bsize;
    }
  }

  /** A chunk `d` with its size filled in. */
  ghost predicate SizeFilled(d: seq<byte>, d': seq<byte>, r: nat) {
    && |d| == |d'| && |d| >= 16 && r < 0x1_0000_0000 && d'[12..16] == WriteLE32(r)
    && forall k :: 0 <= k < |d| && !(12 <= k < 16) ==> d'[k] == d[k]
  }

  lemma FilledCode(d: seq<byte>, d': seq<byte>, r: nat, p: Params, s: seq<byte>, bl: seq<Coded>)
    requires GoodParams(p) && !p.memcpyed && SizeFilled(d, d', r) && HeaderIs(d, p) && Holds(d, p, s, bl)
    requires r <= |d| && Before(p, bl, |bl|, r)
    ensures IsChunk(d', r, p, s, bl)
  {
    hide BlockAt, GoodParams, WriteLE32, FilterBytes, Flags;
    HoldsKept(d, d', p, s, bl, |bl|, r);
    HeaderKept(d, d', p);
  }

  lemma FilledCopy(d: seq<byte>, d': seq<byte>, p: Params, s: seq<byte>, bl: seq<Coded>)
    requires GoodParams(p) && Copied(d, p, s) && |s| + MAX_OVERHEAD < 0x8000_0000 && SizeFilled(d, d', |s| + MAX_OVERHEAD)
    ensures IsChunk(d', |s| + MAX_OVERHEAD, p, s, bl)
  {
    hide GoodParams, WriteLE32, Flags;
    assert d'[..4] == d[..4] && d'[4..8] == d[4..8] && d'[8..12] == d[8..12];
    assert d'[16..16 + |s|] == d[16..16 + |s|];
  }

  lemma HeaderKept(d: seq<byte>, d': seq<byte>, p: Params)
    requires GoodParams(p) && HeaderIs(d, p) && |d| == |d'|
    requires forall k :: 0 <= k < HeaderLength(p.extended) && !(12 <= k < 16) ==> d'[k] == d[k]
    ensures HeaderIs(d', p)
  {
    hide GoodParams, WriteLE32, Flags, FilterBytes;
    assert d'[..4] == d[..4] && d'[4..8] == d[4..8] && d'[8..12] == d[8..12];
    if p.extended {
      assert d'[16..21] == d[16..21] && d'[24..29] == d[24..29];
    }
  }

  /** blosc_compress_context, with one thread: the chunk is a copy only if it was to be one,
      or the blocks do not fit; otherwise its size is that of the table and of what the
      codec finds in the blocks. */
  method CompressContext(codec: Codec, p: Params, s: array<byte>, dest: array<byte>, destsize: nat)
    returns (r: int, q: Params, ghost bl: seq<Coded>)
    requires (p.memcpyed || GoodCodec(codec)) && GoodParams(p) && SplitDivides(p) && Slots(p.filters)
    requires !p.memcpyed ==> FirstBlockFits(p) && p.sourcesize > 0
    requires Roomy(p, s, dest, destsize) && HeaderIs(dest[..], p)
    modifies dest
    ensures q == p.(memcpyed := q.memcpyed) && (p.memcpyed ==> q.memcpyed)
    ensures r < 0 <==> !p.memcpyed && !Known(p.filters)
    ensures 0 < r ==> r <= destsize && IsChunk(dest[..], r, q, s[..], bl)
    ensures r == 0 ==> destsize < p.sourcesize + MAX_OVERHEAD
    ensures !q.memcpyed && r >= 0 ==> r > 0 && r == EndOf(p, bl, |bl|) && Chained(codec, p, s[..], bl, destsize)
    ensures q.memcpyed && !p.memcpyed ==> Chained(codec, p, s[..], bl, destsize) && DoesNotFit(codec, p, s[..], bl, destsize)
  {
    hide Chained, DoesNotFit, EndOf, GoodCodec, Known, Slots, SplitDivides, FirstBlockFits, Holds, WriteLE32, Flags, FilterBytes, Before, HeaderIs, IsChunk;
    r, q, bl := 0, p, [];
    ghost var d := dest[..];
    if !p.memcpyed {
      r, bl := SerialCompress(codec, p, s, dest, destsize);
      HeaderKept(d, dest[..], p);
      if r < 0 {
        return;
      }
      if r > 0 {
        ghost var e := dest[..];
        StoreLE32(dest, 12, r);
        assert dest[..][12..16] == dest[12..16];
        FilledCode(e, dest[..], r, p, s[..], bl);
        return;
      }
      MarkCopied(p, dest);
    }
    q := p.(memcpyed := true);
    assert p.memcpyed ==> q == p;
    r := CopyWhole(p.(memcpyed := true), s, dest, destsize, bl);
  }

  /** The copy that serves when the data does not get smaller, or is not to. */
  method CopyWhole(p: Params, s: array<byte>, dest: array<byte>, destsize: nat, ghost bl: seq<Coded>) returns (r: nat)
    requires GoodParams(p) && p.memcpyed && Roomy(p, s, dest, destsize) && HeaderIs(dest[..], p)
    modifies dest
    ensures r == if p.sourcesize + MAX_OVERHEAD > destsize then 0 else p.sourcesize + MAX_OVERHEAD
    ensures r > 0 ==> IsChunk(dest[..], r, p, s[..], bl)
  {
    hide WriteLE32, Flags, IsChunk, FilterBytes;
    r := 0;
    if p.sourcesize + MAX_OVERHEAD <= destsize {
      ghost var d := dest[..];
      var n := CopyBlocks(p.sourcesize, p.blocksize, s, 0, dest, MAX_OVERHEAD);
      assert dest[..][..4] == d[..4] && dest[..][4..8] == d[4..8] && dest[..][8..12] == d[8..12];
      assert s[..][0..0 + n] == s[..];
      r := n + MAX_OVERHEAD;
    }
    ghost var e := dest[..];
    StoreLE32(dest, 12, r);
    if r > 0 {
      assert dest[..][12..16] == dest[12..16];
      FilledCopy(e, dest[..], p, s[..], bl);
    }
  }

  /** The parameters that blosc2_compress_ctx and blosc_compress settle on, with the block
      size that has been tuned. */
  function Settled(extended: bool, clevel: nat, typesize: nat, nbytes: nat, blocksize: nat, filters: seq<nat>, meta: seq<byte>): Params
  {
    var ts := if typesize > 255 then 1 else typesize;
    Params(extended, ts, nbytes, blocksize, filters, meta, clevel == 0 || nbytes < MIN_BUFFERSIZE,
           ts > 0 && SplitBlock(ts, blocksize))
  }

  lemma SettledWell(p: Params, extended: bool, clevel: nat, typesize: nat, nbytes: nat, filters: seq<nat>, meta: seq<byte>)
    requires typesize > 0 && nbytes <= MAX_BUFFERSIZE && |filters| == |meta| == MAX_FILTERS
    requires forall i :: 0 <= i < MAX_FILTERS ==> filters[i] < 256
    requires p == Settled(extended, clevel, typesize, nbytes, p.blocksize, filters, meta)
    requires nbytes < p.typesize ==> p.blocksize == 1
    requires p.typesize <= nbytes ==> 0 < p.blocksize <= nbytes && (p.blocksize < p.typesize || p.blocksize % p.typesize == 0)
    requires p.typesize <= nbytes && MIN_BUFFERSIZE <= nbytes ==> p.blocksize >= MIN_BUFFERSIZE / 2
    requires DELTA in filters && MIN_BUFFERSIZE <= nbytes ==> p.typesize <= nbytes
    ensures GoodParams(p) && SplitDivides(p) && (!p.memcpyed ==> FirstBlockFits(p) && p.sourcesize > 0)
    ensures p.blocksize == 1 ==> !p.split || p.typesize == 1
    ensures TableEnd(p) < 0x1_0000_0000
  {
    hide SplitBlock, Nblocks, Bsize;
    if p.split {
      SplitSettled(p.typesize, p.blocksize);
    }
    if !p.memcpyed && p.typesize <= nbytes {
      FirstIsWhole(nbytes, p.blocksize);
    }
    if nbytes < p.typesize {
      NoBlocks(nbytes, p.blocksize);
    } else if nbytes < MIN_BUFFERSIZE {
      NoBlocks(nbytes, p.blocksize);
    } else {
      FewBlocks(nbytes, p.blocksize);
    }
  }

  lemma FewBlocks(total: nat, blocksize: nat)
    requires 64 <= blocksize
    ensures Nblocks(total, blocksize) <= total / 64 + 1
  {
    var q := total / blocksize;
    assert total == q * blocksize + total % blocksize;
    ProductGrows(64, blocksize, q);
  }

  lemma SplitSettled(ts: nat, blocksize: nat)
    requires ts > 0 && SplitBlock(ts, blocksize) && (blocksize == 1 || blocksize < ts || blocksize % ts == 0)
    ensures blocksize % ts == 0
  {
    if blocksize < ts {
      DivUnique(blocksize, ts, 0, blocksize);
    }
  }

  lemma FirstIsWhole(total: nat, blocksize: nat)
    requires 0 < blocksize <= total
    ensures Bsize(total, blocksize, 0) == blocksize
  {
    var q := total / blocksize;
    assert total == q * blocksize + total % blocksize;
    ProductGrows(1, q, blocksize);
    if q == 1 && total % blocksize > 0 {
      assert Nblocks(total, blocksize) == 2;
    }
  }

  lemma SplitMeans(typesize: nat, blocksize: nat)
    requires typesize > 0
    ensures SplitBlock(typesize, blocksize) <==> typesize <= 16 && 128 <= blocksize / typesize
  {
  }

  /** BloscLZ as a chunk of this level and type size calls it. */
  function CodecFor(share: (nat, nat) -> int, clevel: nat, typesize: nat): Codec {
    Codec(clevel, Accel(if typesize > 255 then 1 else typesize), (n: nat) => share(clevel, n))
  }

  /** blosc2_compress_ctx, and blosc_compress with `extended` off, with BloscLZ and one
      thread. With sixteen bytes of room more than the source has, this succeeds. */
  method Compress(share: (nat, nat) -> int, extended: bool, clevel: nat, typesize: nat, user: nat,
                  filters: seq<nat>, meta: seq<byte>, s: array<byte>, dest: array<byte>, destsize: nat)
    returns (r: int, q: Params, ghost bl: seq<Coded>)
    requires typesize > 0 && |meta| == MAX_FILTERS && Slots(filters)
    requires forall i :: 0 <= i < MAX_FILTERS ==> filters[i] < 256
    requires DELTA in filters && MIN_BUFFERSIZE <= s.Length ==> typesize > 255 || typesize <= s.Length
    requires s != dest && destsize <= dest.Length && destsize < 0x8000_0000 && HeaderLength(extended) + 4 <= dest.Length
    modifies dest
    ensures s.Length > MAX_BUFFERSIZE ==> r == -1
    ensures s.Length <= MAX_BUFFERSIZE && clevel > 9 ==> r == -10
    ensures s.Length <= MAX_BUFFERSIZE && clevel <= 9 ==>
              && GoodParams(q) && SplitDivides(q) && q == Settled(extended, clevel, typesize, s.Length, q.blocksize, filters, meta).(memcpyed := q.memcpyed)
              && (r < 0 <==> 0 < clevel && MIN_BUFFERSIZE <= s.Length && !Known(filters))
              && (r == 0 ==> destsize < s.Length + MAX_OVERHEAD)
              && (r > 0 ==> r <= destsize && IsChunk(dest[..], r, q, s[..], bl))
              && (!q.memcpyed ==> FirstBlockFits(q))
              && (q.split <==> q.typesize <= 16 && 128 <= q.blocksize / q.typesize)
              && (!q.memcpyed && r >= 0 ==>
                    r > 0 && r == EndOf(q, bl, |bl|) && Chained(CodecFor(share, clevel, typesize), q, s[..], bl, destsize))
              && (q.memcpyed && 0 < clevel && MIN_BUFFERSIZE <= s.Length ==>
                    Chained(CodecFor(share, clevel, typesize), q, s[..], bl, destsize)
                    && DoesNotFit(CodecFor(share, clevel, typesize), q, s[..], bl, destsize))
              && (q.typesize <= s.Length && (user == 0 || q.typesize <= user || q.typesize <= MIN_BUFFERSIZE) ==>
                    q.blocksize % q.typesize == 0)
  {
    hide Known, Holds, WriteLE32, Flags, FilterBytes, HeaderIs, IsChunk, SplitBlock, FirstBlockFits, Chained, DoesNotFit, EndOf;
    r, q, bl := -1, Params(extended, 1, 0, 1, filters, meta, true, false), [];
    if s.Length > MAX_BUFFERSIZE {
      return;
    }
    if clevel > 9 {
      r := -10;
      return;
    }
    var ts := if typesize > 255 then 1 else typesize;
    var blocksize := TuneBlocksize(clevel, ts, s.Length, user, false);
    var p := Settled(extended, clevel, typesize, s.Length, blocksize, filters, meta);
    SettledWell(p, extended, clevel, typesize, s.Length, filters, meta);
    WriteHeader(p, dest);
    SplitMeans(p.typesize, p.blocksize);
    var codec := CodecFor(share, clevel, typesize);
    r, q, bl := CompressContext(codec, p, s, dest, destsize);
    assert !q.memcpyed ==> q == p;
    CopyFlagIsIgnored(codec, p, s[..], bl, destsize);
  }

  // ----- Decompression -----

  /** What the filters ask for to be undone: the delta filter first, the bit shuffle last,
      and no bytes that a filter drops in any block. */
  predicate Undoable(p: Params)
    requires GoodParams(p)
  {
    && Known(p.filters) && Ordered(p.filters) && FirstBlockFits(p)
    && KeepsAll(p.filters, p.typesize, p.blocksize)
    && (Leftover(p.sourcesize, p.blocksize) > 0 ==> KeepsAll(p.filters, p.typesize, Leftover(p.sourcesize, p.blocksize)))
  }

  lemma BlockUndoable(p: Params, b: nat)
    requires GoodParams(p) && Undoable(p)
    ensures KeepsAll(p.filters, p.typesize, BlockBytes(p, b))
  {
  }

  lemma BlockMeans(d: seq<byte>, p: Params, s: seq<byte>, b: nat, c: Coded)
    requires GoodParams(p) && BlockAt(d, p, s, b, c)
    ensures CodeAt(d, p.filters, p.typesize, s, Offset(p.blocksize, b), BlockBytes(p, b), BlockSplits(p, b), BlockPiece(p, b), c)
  {
  }

  lemma EntryRead(d: seq<byte>, p: Params, b: nat, start: nat)
    requires GoodParams(p) && InTable(d, p, b, start)
    ensures var at := HeaderLength(p.extended) + 4 * b;
            at + 4 <= |d| && ReadLE32(d[at..at + 4]) == start
  {
    hide WriteLE32, ReadLE32;
    LE32RoundTrip(start);
  }

  /** What the table and the code of a block tell the decompressor. */
  ghost predicate Found(d: seq<byte>, p: Params, s: seq<byte>, b: nat, c: Coded, sp: nat)
    requires GoodParams(p)
  {
    var o, n, l := Offset(p.blocksize, b), Bsize(p.sourcesize, p.blocksize, b), IsLeftover(p.sourcesize, p.blocksize, b);
    && p.typesize > 0 && 0 < n <= p.blocksize && o + n <= |s| && (o == 0 <==> b == 0) && (b > 0 ==> p.blocksize <= o)
    && Divides(p.typesize, p.split, l, n) && Known(p.filters) && Ordered(p.filters) && KeepsAll(p.filters, p.typesize, n)
    && (DELTA in p.filters && o == 0 ==> Delta.WordSize(p.typesize) <= n)
    && sp == c.start <= |d| && Stages(p.filters, p.typesize, s, o, c.st) && |c.st| == MAX_FILTERS + 1
    && c.st[0] == s[o..o + n] && LeftForDelta(p.filters) < |c.st|
    && ReadSplits(d[sp..], Splits(p.typesize, p.split, l), n / Splits(p.typesize, p.split, l)) == Good(c.st[MAX_FILTERS], c.len)
  }

  /** The start of block `b`, from the table. */
  method FindBlock(p: Params, chunk: array<byte>, b: nat, ghost s: seq<byte>, ghost c: Coded) returns (sp: nat)
    requires GoodParams(p) && SplitDivides(p) && Undoable(p) && |s| == p.sourcesize && b < Nblocks(p.sourcesize, p.blocksize)
    requires BlockAt(chunk[..], p, s, b, c) && InTable(chunk[..], p, b, c.start)
    ensures Found(chunk[..], p, s, b, c, sp)
  {
    hide *;
    EntryRead(chunk[..], p, b, c.start);
    var at := HeaderLength(p.extended) + 4 * b;
    assert chunk[..][at..at + 4] == chunk[at..at + 4];
    sp := ReadLE32(chunk[at..at + 4]);
    BlockFound(chunk[..], p, s, b, c);
  }

  lemma BlockFound(d: seq<byte>, p: Params, s: seq<byte>, b: nat, c: Coded)
    requires GoodParams(p) && SplitDivides(p) && Undoable(p) && |s| == p.sourcesize && b < Nblocks(p.sourcesize, p.blocksize)
    requires BlockAt(d, p, s, b, c)
    ensures Found(d, p, s, b, c, c.start)
  {
    hide Stages, ReadSplits, Offset, Bsize, Nblocks, IsLeftover, Delta.WordSize, Splits, LeftForDelta;
    hide Divides, GoodParams, BlockAt, BlockBytes, BlockSplits, BlockPiece, KeepsAll, Ordered, SplitDivides, FirstBlockFits;
    BlockReady(p, b);
    BlockUndoable(p, b);
    BlockMeans(d, p, s, b, c);
    BlocksLine(p.sourcesize, p.blocksize, b);
    OffsetZero(p, b);
    var code, rest := d[c.start..c.start + c.len], d[c.start + c.len..];
    assert d[c.start..] == code + rest;
    ReadSplitsPrefix(code, rest, BlockSplits(p, b), BlockPiece(p, b));
  }

  /** One round of the loop of serial_blosc, decompressing. */
  method DecompressOne(p: Params, chunk: array<byte>, b: nat, dest: array<byte>,
                       tmp: array<byte>, tmp2: array<byte>, tmp4: array<byte>, ghost s: seq<byte>, ghost c: Coded)
    returns (r: int)
    requires GoodParams(p) && SplitDivides(p) && Undoable(p) && |s| == p.sourcesize <= dest.Length
    requires chunk != dest && Scratch(p, tmp, tmp2, tmp4, chunk, dest) && b < Nblocks(p.sourcesize, p.blocksize)
    requires BlockAt(chunk[..], p, s, b, c) && InTable(chunk[..], p, b, c.start)
    requires Offset(p.blocksize, b) <= |s| && dest[..Offset(p.blocksize, b)] == s[..Offset(p.blocksize, b)]
    modifies dest, tmp, tmp2, tmp4
    ensures r == Bsize(p.sourcesize, p.blocksize, b) && Offset(p.blocksize, b) + r <= |s|
    ensures dest[..Offset(p.blocksize, b) + r] == s[..Offset(p.blocksize, b) + r]
    ensures forall k :: |s| <= k < dest.Length ==> dest[k] == old(dest[k])
  {
    hide Stages, ReadSplits, Known, Offset, Bsize, Nblocks, IsLeftover, Delta.WordSize, Splits, LeftForDelta;
    hide Divides, GoodParams, BlockAt, InTable, KeepsAll, Ordered, SplitDivides, Undoable;
    var sp := FindBlock(p, chunk, b, s, c);
    assert chunk[..][sp..] == chunk[sp..];
    var offset := Offset(p.blocksize, b);
    var bsize, leftover := Bsize(p.sourcesize, p.blocksize, b), IsLeftover(p.sourcesize, p.blocksize, b);
    if offset > 0 {
      assert dest[..bsize] == dest[..offset][..bsize] && s[..bsize] == s[..offset][..bsize];
    }
    ghost var before := dest[..offset];
    r := DecompressBlock(p.filters, p.typesize, p.split, bsize, leftover, chunk, sp, dest, offset, tmp, tmp2, tmp4, s, c.st);
    assert dest[..offset] == before;
    assert dest[..offset + bsize] == dest[..offset] + dest[offset..offset + bsize];
    assert s[..offset + bsize] == s[..offset] + s[offset..offset + bsize];
  }

  /** serial_blosc, decompressing. */
  method SerialDecompress(p: Params, chunk: array<byte>, dest: array<byte>, ghost s: seq<byte>, ghost bl: seq<Coded>)
    returns (r: nat)
    requires GoodParams(p) && SplitDivides(p) && Undoable(p) && |s| == p.sourcesize <= dest.Length && chunk != dest
    requires Holds(chunk[..], p, s, bl)
    modifies dest
    ensures r == p.sourcesize && dest[..r] == s
    ensures forall k :: |s| <= k < dest.Length ==> dest[k] == old(dest[k])
  {
    hide Offset, Bsize, Nblocks, IsLeftover, Undoable, BlockAt, InTable, SplitDivides;
    var tmp, tmp2, tmp4 := new byte[p.blocksize], new byte[p.blocksize], new byte[p.blocksize];
    var nblocks := Nblocks(p.sourcesize, p.blocksize);
    NoBlocks(p.sourcesize, p.blocksize);
    r := 0;
    for b := 0 to nblocks
      invariant r <= |s| && (b == nblocks ==> r == |s|) && (b < nblocks ==> r == Offset(p.blocksize, b))
      invariant dest[..r] == s[..r]
      invariant forall k :: |s| <= k < dest.Length ==> dest[k] == old(dest[k])
    {
      BlocksLine(p.sourcesize, p.blocksize, b);
      assert BlockAt(chunk[..], p, s, b, bl[b]) && InTable(chunk[..], p, b, bl[b].start);
      var m := DecompressOne(p, chunk, b, dest, tmp, tmp2, tmp4, s, bl[b]);
      r := r + m;
    }
  }

  /** blosc_run_decompression_with_context: a chunk that holds a source gives it back, if
      there is room for it. */
  method Decompress(chunk: array<byte>, dest: array<byte>, destsize: nat,
                    ghost r: nat, ghost q: Params, ghost s: seq<byte>, ghost bl: seq<Coded>)
    returns (n: int)
    requires GoodParams(q) && SplitDivides(q) && (q.extended || Classic(q)) && (!q.memcpyed ==> Undoable(q))
    requires |s| == q.sourcesize && IsChunk(chunk[..], r, q, s, bl) && HeaderLength(q.extended) <= chunk.Length
    requires chunk != dest && destsize <= dest.Length
    modifies dest
    ensures n == if |s| <= destsize then |s| else -1
    ensures n >= 0 ==> dest[..n] == s
    ensures forall k :: |s| <= k < dest.Length ==> dest[k] == old(dest[k])
  {
    hide Holds, Undoable, SplitDivides, WriteLE32, Flags, FilterBytes, HeaderBase;
    if q.memcpyed {
      BaseRoundTrip(q, chunk[..]);
    } else {
      HeaderRoundTrip(q, chunk[..]);
    }
    var p := ReadHeader(chunk[..]);
    if p.sourcesize > destsize {
      return -1;
    }
    if p.memcpyed {
      assert chunk[..][MAX_OVERHEAD..MAX_OVERHEAD + |s|] == chunk[MAX_OVERHEAD..MAX_OVERHEAD + |s|];
      Memcpy(dest, 0, chunk, MAX_OVERHEAD, p.sourcesize);
      n := p.sourcesize;
    } else {
      n := SerialDecompress(p, chunk, dest, s, bl);
    }
  }

  // ----- There and back -----

  lemma WholeElements(ts: nat, n: nat)
    requires ts > 0 && n % ts == 0
    ensures Lossless(ts, n) && n % Delta.WordSize(ts) == 0
  {
    var w := Delta.WordSize(ts);
    var e, k := ts / w, n / ts;
    assert ts == e * w;
    assert n == k * ts;
    assert n == (k * e) * w by { assert k * (e * w) == (k * e) * w; }
    DivUnique(n, w, k * e, 0);
  }

  lemma WholeLeftover(n: int, m: int, t: int)
    requires 0 < t && 0 < m && 0 <= n && n % t == 0 && m % t == 0
    ensures (n % m) % t == 0
  {
    var a, b, q := n / t, m / t, n / m;
    assert n == a * t && m == b * t && n % m == n - q * m;
    assert q * (b * t) == (q * b) * t;
    assert n % m == (a - q * b) * t;
    TimesAtLeast(a - q * b, t);
    DivUnique(n % m, t, a - q * b, 0);
  }

  /** No filter drops anything if there are whole elements everywhere, which a caller can
      see from the sizes. */
  lemma WholeIsUndoable(p: Params)
    requires GoodParams(p) && Known(p.filters) && Ordered(p.filters) && FirstBlockFits(p)
    requires BITSHUFFLE in p.filters || DELTA in p.filters ==> p.sourcesize % p.typesize == 0 && p.blocksize % p.typesize == 0
    ensures Undoable(p)
  {
    hide Lossless, Delta.WordSize;
    if BITSHUFFLE in p.filters || DELTA in p.filters {
      WholeLeftover(p.sourcesize, p.blocksize, p.typesize);
      WholeElements(p.typesize, p.blocksize);
      WholeElements(p.typesize, p.sourcesize % p.blocksize);
    }
  }

  /** What a caller can see: no filter drops anything, whatever block size is chosen. */
  predicate WholeSizes(typesize: nat, n: nat, user: nat, filters: seq<nat>) {
    && Known(filters) && |filters| == MAX_FILTERS && Ordered(filters)
    && (BITSHUFFLE in filters || DELTA in filters ==>
          || typesize > 255
          || (0 < typesize <= n && n % typesize == 0 && (user == 0 || typesize <= user || typesize <= MIN_BUFFERSIZE)))
  }

  lemma WholeSizesSuffice(q: Params, typesize: nat, n: nat, user: nat, filters: seq<nat>)
    requires GoodParams(q) && FirstBlockFits(q) && WholeSizes(typesize, n, user, filters) && typesize > 0
    requires q.filters == filters && q.sourcesize == n && q.typesize == if typesize > 255 then 1 else typesize
    requires q.typesize <= n && (user == 0 || q.typesize <= user || q.typesize <= MIN_BUFFERSIZE) ==> q.blocksize % q.typesize == 0
    ensures Undoable(q)
  {
    hide Undoable, FirstBlockFits, Ordered, Known;
    if q.typesize == 1 {
      DivUnique(n, 1, n, 0);
      DivUnique(q.blocksize, 1, q.blocksize, 0);
    }
    WholeIsUndoable(q);
  }

  /** Compress and decompress: the source comes back if it was merely copied, and otherwise
      if its filters can be undone; the sizes can tell that before. */
  method RoundTrip(share: (nat, nat) -> int, extended: bool, clevel: nat, typesize: nat, user: nat,
                   filters: seq<nat>, meta: seq<byte>, s: array<byte>, dest: array<byte>, destsize: nat, out: array<byte>)
    returns (r: int, q: Params, n: int)
    requires 0 < typesize && |meta| == MAX_FILTERS && Slots(filters) && forall i :: 0 <= i < MAX_FILTERS ==> filters[i] < 256
    requires clevel <= 9 && s.Length <= MAX_BUFFERSIZE
    requires extended || (filters[..3] == [0, 0, 0] && (filters[3] == NOFILTER || filters[3] == DELTA)
                          && filters[4] <= BITSHUFFLE && meta == [0, 0, 0, 0, 0])
    requires DELTA in filters && MIN_BUFFERSIZE <= s.Length ==> typesize > 255 || typesize <= s.Length
    requires s != dest && dest != out && s != out && destsize <= dest.Length && destsize < 0x8000_0000
    requires HeaderLength(extended) + 4 <= dest.Length && s.Length <= out.Length
    modifies dest, out
    ensures r < 0 <==> 0 < clevel && MIN_BUFFERSIZE <= s.Length && !Known(filters)
    ensures r <= destsize && (s.Length + MAX_OVERHEAD <= destsize ==> r != 0)
    ensures GoodParams(q) && q == Settled(extended, clevel, typesize, s.Length, q.blocksize, filters, meta).(memcpyed := q.memcpyed)
    ensures r > 0 && (q.memcpyed || Undoable(q)) ==> n == s.Length && out[..n] == s[..]
    ensures r > 0 && WholeSizes(typesize, s.Length, user, filters) ==> n == s.Length && out[..n] == s[..]
  {
    hide Holds, IsChunk, Undoable, SplitBlock, SplitDivides, FirstBlockFits, Flags, Ordered, Known;
    ghost var bl;
    r, q, bl := Compress(share, extended, clevel, typesize, user, filters, meta, s, dest, destsize);
    n := -1;
    if r > 0 && !q.memcpyed && WholeSizes(typesize, s.Length, user, filters) {
      WholeSizesSuffice(q, typesize, s.Length, user, filters);
    }
    if r > 0 && (q.memcpyed || Undoable(q)) {
      n := Decompress(dest, out, s.Length, r, q, s[..], bl);
    }
  }
}
