/** One block of a chunk: blosc_c and blosc_d (c-blosc2/blosc/blosc.c:623-746, 828-941),
    with BloscLZ as the codec. A block is coded in splits: each is its length in four
    bytes, then its bytes, which are the codec's unless there are as many as in the split. */
module BloscBlock {
  import opened Bytes
  import opened Arithmetic
  import opened LittleEndian
  import opened BloscLzDecoder
  import BloscLzEncoder
  import BloscLzGreedy
  import opened Pipeline
  import opened Filters

  /** What reading a number of splits comes to: the bytes and how many were used up, an
      error of the codec, or a length that leads out of the chunk. */
  datatype Read = Good(bytes: seq<byte>, used: nat) | BadData | Outside

  /** One split of `neblock` bytes. */
  function ReadSplit(s: seq<byte>, neblock: nat): (r: Read)
    ensures r.Good? ==> 4 <= r.used <= |s| && |r.bytes| == neblock
  {
    if |s| < 4 || ReadLE32(s) >= 0x8000_0000 || |s| < 4 + ReadLE32(s) then Outside
    else
      var body := s[4..4 + ReadLE32(s)];
      if |body| == neblock then Good(body, 4 + |body|)
      else
        match Decode(body, neblock)
        case Done(bytes) => if |bytes| == neblock then Good(bytes, 4 + |body|) else BadData
        case Failed => BadData
        case Overrun => Outside
  }

  function ReadSplits(s: seq<byte>, n: nat, neblock: nat): (r: Read)
    ensures r.Good? ==> r.used <= |s| && |r.bytes| == n * neblock
  {
    if n == 0 then Good([], 0)
    else
      var first := ReadSplit(s, neblock);
      if !first.Good? then first
      else
        var rest := ReadSplits(s[first.used..], n - 1, neblock);
        if !rest.Good? then rest
        else
          assert (n - 1) * neblock + neblock == n * neblock;
          Good(first.bytes + rest.bytes, first.used + rest.used)
  }

  /** What follows a split does not matter to it. */
  lemma ReadSplitPrefix(a: seq<byte>, e: seq<byte>, neblock: nat)
    requires ReadSplit(a, neblock).Good?
    ensures ReadSplit(a + e, neblock) == ReadSplit(a, neblock)
  {
    hide ReadLE32, Decode;
    ReadLE32Prefix(a + e, |a|);
    assert (a + e)[..|a|] == a;
    assert (a + e)[4..4 + ReadLE32(a)] == a[4..4 + ReadLE32(a)];
  }

  lemma SplitsStep(s: seq<byte>, n: nat, neblock: nat)
    requires n > 0
    ensures var first, r := ReadSplit(s, neblock), ReadSplits(s, n, neblock);
            if !first.Good? then r == first else
            && first.used <= |s|
            && var rest := ReadSplits(s[first.used..], n - 1, neblock);
               r == if rest.Good? then Good(first.bytes + rest.bytes, first.used + rest.used) else rest
  {
    hide ReadSplit;
  }

  lemma NoneRead(s: seq<byte>, neblock: nat)
    ensures ReadSplits(s, 0, neblock) == Good([], 0)
  {
  }

  /** Splits are read one after another. */
  lemma {:induction false} ReadSplitsAppend(a: seq<byte>, e: seq<byte>, n: nat, neblock: nat)
    requires ReadSplits(a, n, neblock).Good? && ReadSplits(a, n, neblock).used == |a|
    requires ReadSplit(e, neblock).Good? && ReadSplit(e, neblock).used == |e|
    ensures ReadSplits(a + e, n + 1, neblock)
         == Good(ReadSplits(a, n, neblock).bytes + ReadSplit(e, neblock).bytes, |a| + |e|)
  {
    hide ReadSplit, ReadSplits;
    SplitsStep(a + e, n + 1, neblock);
    if n == 0 {
      NoneRead(a, neblock);
      NoneRead(e[|e|..], neblock);
      assert a + e == e;
      var r := ReadSplit(e, neblock);
      assert r.bytes + [] == r.bytes == [] + r.bytes;
    } else {
      SplitsStep(a, n, neblock);
      var first := ReadSplit(a, neblock);
      var b := a[first.used..];
      ReadSplitsAppend(b, e, n - 1, neblock);
      ReadSplitPrefix(a, e, neblock);
      assert (a + e)[first.used..] == b + e;
      ConcatAssoc(first.bytes, ReadSplits(b, n - 1, neblock).bytes, ReadSplit(e, neblock).bytes);
    }
  }

  lemma {:induction false} ReadSplitsPrefix(a: seq<byte>, e: seq<byte>, n: nat, neblock: nat)
    requires ReadSplits(a, n, neblock).Good?
    ensures ReadSplits(a + e, n, neblock) == ReadSplits(a, n, neblock)
  {
    hide ReadSplit, ReadSplits;
    if n == 0 {
      NoneRead(a, neblock);
      NoneRead(a + e, neblock);
    } else {
      SplitsStep(a, n, neblock);
      SplitsStep(a + e, n, neblock);
      var first := ReadSplit(a, neblock);
      ReadSplitPrefix(a, e, neblock);
      assert (a + e)[first.used..] == a[first.used..] + e;
      ReadSplitsPrefix(a[first.used..], e, n - 1, neblock);
    }
  }

  // ----- Compression -----

  /** How blosclz_compress is called: with a level, an acceleration, and the part of a length
      that the level grants to the output. */
  datatype Codec = Codec(level: nat, accel: int, share: nat -> int)

  predicate GoodCodec(codec: Codec) {
    1 <= codec.level <= 9 && codec.accel < 0x8000_0000
  }

  /** get_accel, for BloscLZ. */
  function Accel(ts: nat): int {
    if ts in {1, 2, 4, 8, 16} then 32 else 1
  }

  /** How long the output of the codec is: what it finds in the piece, or nothing if that
      does not fit. */
  function CodeLength(codec: Codec, piece: seq<byte>, maxout: int): nat
    requires GoodCodec(codec) && |piece| < 0x8000_0000
  {
    var share := codec.share(|piece|);
    match BloscLzGreedy.Parse(piece, codec.level, BloscLzEncoder.Accelerated(codec.accel), if share > maxout then maxout else share)
    case GivesUp => 0
    case Whole(p) => BloscLzGreedy.StreamLength(p)
  }

  /** The call of the codec; the room for the output may be negative. */
  method RunCodec(codec: Codec, piece: seq<byte>, maxout: int) returns (body: seq<byte>)
    requires GoodCodec(codec) && |piece| < 0x8000_0000
    ensures body != [] ==> |body| <= maxout && forall cap: nat :: |piece| <= cap ==> Decode(body, cap) == Done(piece)
    ensures |body| == CodeLength(codec, piece, maxout)
  {
    hide Decode, BloscLzGreedy.Parse, BloscLzGreedy.StreamLength;
    var input := new byte[|piece|](i requires 0 <= i < |piece| => piece[i]);
    var output := new byte[if maxout > 0 then maxout else 0];
    assert input[..|piece|] == piece;
    var n := BloscLzEncoder.Compress(codec.level, input, |piece|, output, maxout, codec.accel, codec.share(|piece|));
    body := output[..n];
  }

  /** The bytes of a split. */
  function SplitBytes(body: seq<byte>): (e: seq<byte>)
    requires |body| < 0x8000_0000
    ensures |e| == 4 + |body|
  {
    WriteLE32(|body|) + body
  }

  lemma SplitRead(piece: seq<byte>, body: seq<byte>)
    requires |body| < 0x8000_0000
    requires body == piece || (|body| != |piece| && Decode(body, |piece|) == Done(piece))
    ensures ReadSplit(SplitBytes(body), |piece|) == Good(piece, 4 + |body|)
  {
    hide ReadLE32, WriteLE32, Decode;
    LE32RoundTrip(|body|);
    var e := SplitBytes(body);
    assert e[..4] == WriteLE32(|body|);
    ReadLE32Prefix(e, 4);
    assert e[4..4 + |body|] == body;
  }

  /** How long a split is in `room` bytes: its length in four bytes, and the output of the
      codec or, if there is none or as much as there was before, the piece itself; 0 if there
      is no room for it. */
  function SplitLength(codec: Codec, piece: seq<byte>, room: int): nat
    requires GoodCodec(codec) && |piece| < 0x8000_0000
  {
    if room == 4 && |piece| > 0 then 0
    else
      var c := CodeLength(codec, piece, if 4 + |piece| > room then room - 4 else |piece|);
      if c != 0 && c != |piece| then 4 + c
      else if 4 + |piece| <= room then 4 + |piece|
      else 0
  }

  /** The loop body of blosc_c: code one piece of the block at `nt`; 0 if there is no room. */
  method CompressSplit(codec: Codec, piece: seq<byte>, dest: array<byte>, nt: nat, maxbytes: nat)
    returns (r: nat)
    requires GoodCodec(codec) && 0 < |piece| < 0x8000_0000 && maxbytes <= dest.Length
    modifies dest
    ensures r > 0 ==> nt + r <= maxbytes && ReadSplit(dest[nt..nt + r], |piece|) == Good(piece, r)
    ensures r <= 4 + |piece| && (r == 0 ==> maxbytes < nt + 4 + |piece|)
    ensures r == SplitLength(codec, piece, maxbytes - nt)
    ensures forall k :: 0 <= k < dest.Length && !(nt <= k < maxbytes) ==> dest[k] == old(dest[k])
  {
    hide ReadSplit, SplitBytes, CodeLength;
    var neblock := |piece|;
    var maxout: int := neblock;
    if nt + 4 + maxout > maxbytes {
      maxout := maxbytes - (nt + 4);
      if maxout == 0 {
        return 0;
      }
    }
    var body := RunCodec(codec, piece, maxout);
    var cbytes := |body|;
    if cbytes == 0 || cbytes == neblock {
      if nt + 4 + neblock > maxbytes {
        return 0;
      }
      body := piece;
      cbytes := neblock;
    }
    SplitRead(piece, body);
    var e := SplitBytes(body);
    forall k | 0 <= k < |e| {
      dest[nt + k] := e[k];
    }
    assert dest[nt..nt + |e|] == e;
    r := 4 + cbytes;
  }

  /** The number of splits of a block. */
  function Splits(ts: nat, split: bool, leftover: bool): (n: nat)
    requires ts > 0
    ensures n > 0
  {
    if split && !leftover then ts else 1
  }

  /** A block of `bsize` bytes can be cut into its splits without loss. */
  predicate Divides(ts: nat, split: bool, leftover: bool, bsize: nat)
    requires ts > 0
  {
    bsize % Splits(ts, split, leftover) == 0
  }

  lemma PiecesMake(bsize: nat, n: nat)
    requires n > 0 && bsize % n == 0
    ensures n * (bsize / n) == bsize
  {
  }

  lemma NextPiece(j: nat, n: nat, neblock: nat)
    requires j < n
    ensures j * neblock + neblock == (j + 1) * neblock <= n * neblock
  {
    ProductGrows(j + 1, n, neblock);
  }

  /** Where the split after `j` others begins. */
  function Pieces(j: nat, neblock: nat): nat {
    j * neblock
  }

  lemma PiecesGrow(j: nat, n: nat, neblock: nat)
    requires j < n
    ensures Pieces(j, neblock) + neblock == Pieces(j + 1, neblock) <= Pieces(n, neblock)
  {
    NextPiece(j, n, neblock);
  }

  lemma PiecesInAll(n: nat, neblock: nat)
    ensures Pieces(0, neblock) == 0 && Pieces(n, neblock) == n * neblock
  {
  }

  /** How long the first `n` splits are together, or -1 if one does not fit. */
  function SplitsLength(codec: Codec, s: seq<byte>, n: nat, neblock: nat, room: int): (r: int)
    requires GoodCodec(codec) && neblock < 0x8000_0000 && Pieces(n, neblock) <= |s|
    ensures -1 <= r
  {
    if n == 0 then 0
    else
      PiecesGrow(n - 1, n, neblock);
      var before := SplitsLength(codec, s, n - 1, neblock, room);
      if before < 0 then -1
      else
        var r := SplitLength(codec, s[Pieces(n - 1, neblock)..Pieces(n, neblock)], room - before);
        if r == 0 then -1 else before + r
  }

  lemma SplitsLengthStep(codec: Codec, s: seq<byte>, n: nat, neblock: nat, room: int)
    requires GoodCodec(codec) && neblock < 0x8000_0000 && Pieces(n + 1, neblock) <= |s|
    ensures Pieces(n, neblock) + neblock == Pieces(n + 1, neblock)
    ensures SplitsLength(codec, s, 0, neblock, room) == 0
    ensures var before := SplitsLength(codec, s, n, neblock, room);
            SplitsLength(codec, s, n + 1, neblock, room)
            == if before < 0 then -1
               else
                 var r := SplitLength(codec, s[Pieces(n, neblock)..Pieces(n, neblock) + neblock], room - before);
                 if r == 0 then -1 else before + r
  {
    hide SplitLength;
    PiecesGrow(n, n + 1, neblock);
    PiecesInAll(0, neblock);
  }

  lemma {:induction false} SplitsLengthFails(codec: Codec, s: seq<byte>, m: nat, n: nat, neblock: nat, room: int)
    requires GoodCodec(codec) && neblock < 0x8000_0000 && m <= n && Pieces(n, neblock) <= |s| && Pieces(m, neblock) <= |s|
    requires SplitsLength(codec, s, m, neblock, room) < 0
    ensures SplitsLength(codec, s, n, neblock, room) < 0
  {
    hide SplitLength, Pieces;
    if m < n {
      PiecesGrow(n - 1, n, neblock);
      SplitsLengthFails(codec, s, m, n - 1, neblock, room);
    }
  }

  lemma NextLength(codec: Codec, src: seq<byte>, at: nat, end: nat, j: nat, n: nat, neblock: nat, room: int, piece: seq<byte>, left: int)
    requires GoodCodec(codec) && neblock < 0x8000_0000 && j < n && at <= end <= |src| && end - at == Pieces(n, neblock)
    requires at + Pieces(j, neblock) + neblock <= end && piece == src[at + Pieces(j, neblock)..at + Pieces(j, neblock) + neblock]
    requires Pieces(j, neblock) + neblock == Pieces(j + 1, neblock) <= Pieces(n, neblock)
    requires left <= room && SplitsLength(codec, src[at..end], j, neblock, room) == room - left
    ensures var s, r := src[at..end], SplitLength(codec, piece, left);
            && SplitsLength(codec, s, j + 1, neblock, room) == (if r == 0 then -1 else room - left + r)
            && (r == 0 ==> SplitsLength(codec, s, n, neblock, room) == -1)
  {
    hide SplitLength, SplitsLength, Pieces;
    var s := src[at..end];
    SplitsLengthStep(codec, s, j, neblock, room);
    SliceInSlice(src, at, end, Pieces(j, neblock), Pieces(j, neblock) + neblock);
    if SplitsLength(codec, s, j + 1, neblock, room) < 0 {
      SplitsLengthFails(codec, s, j + 1, n, neblock, room);
    }
  }

  /** The next split, behind `j` others. */
  method CompressNext(codec: Codec, j: nat, n: nat, neblock: nat, src: array<byte>, ghost at: nat, p: nat, ghost end: nat,
                      dest: array<byte>, ghost nt0: nat, nt: nat, maxbytes: nat)
    returns (m: nat)
    requires GoodCodec(codec) && 0 < neblock < 0x8000_0000 && maxbytes <= dest.Length && src != dest
    requires j < n && at <= end <= src.Length && end - at == Pieces(n, neblock) && p == at + Pieces(j, neblock) && p + neblock <= end
    requires Pieces(j, neblock) + neblock == Pieces(j + 1, neblock) <= Pieces(n, neblock)
    requires nt0 <= nt && SplitsLength(codec, src[at..end], j, neblock, maxbytes - nt0) == nt - nt0
    requires nt <= dest.Length ==> ReadSplits(dest[nt0..nt], j, neblock) == Good(src[at..p], nt - nt0)
    modifies dest
    ensures m <= 4 + neblock && (m == 0 ==> maxbytes < nt + 4 + neblock && SplitsLength(codec, src[at..end], n, neblock, maxbytes - nt0) == -1)
    ensures m > 0 ==>
              && nt + m <= maxbytes && SplitsLength(codec, src[at..end], j + 1, neblock, maxbytes - nt0) == nt + m - nt0
              && ReadSplits(dest[nt0..nt + m], j + 1, neblock) == Good(src[at..p + neblock], nt + m - nt0)
    ensures forall k :: 0 <= k < dest.Length && !(nt <= k < maxbytes) ==> dest[k] == old(dest[k])
  {
    hide *;
    ghost var code := if nt <= dest.Length then dest[nt0..nt] else [];
    ghost var piece := src[p..p + neblock];
    NextLength(codec, src[..], at, end, j, n, neblock, maxbytes - nt0, piece, maxbytes - nt);
    m := CompressSplit(codec, src[p..p + neblock], dest, nt, maxbytes);
    if m > 0 {
      assert dest[..][nt0..nt] == code;
      SplitAppended(dest[..], code, nt0, nt, m, j, neblock, src[..], at, p);
    }
  }

  /** Code the block that lies at `at` of `src`, split by split. */
  method CompressSplits(codec: Codec, n: nat, neblock: nat, src: array<byte>, at: nat,
                        dest: array<byte>, nt0: nat, maxbytes: nat)
    returns (r: nat)
    requires GoodCodec(codec) && 0 < neblock < 0x8000_0000 && maxbytes <= dest.Length
    requires src != dest && at + n * neblock <= src.Length && n > 0
    modifies dest
    ensures r > 0 ==>
              && nt0 + r <= maxbytes
              && ReadSplits(dest[nt0..nt0 + r], n, neblock) == Good(src[at..at + n * neblock], r)
    ensures r == 0 ==> maxbytes < nt0 + 4 * n + n * neblock
    ensures Pieces(n, neblock) == n * neblock
    ensures SplitsLength(codec, src[at..at + n * neblock], n, neblock, maxbytes - nt0) == if r == 0 then -1 else r
    ensures forall k :: 0 <= k < dest.Length && !(nt0 <= k < maxbytes) ==> dest[k] == old(dest[k])
  {
    hide *;
    var nt := nt0;
    var p: nat := at;
    assert (nt0 <= dest.Length ==> dest[nt0..nt0] == []) && src[at..at] == [];
    ghost var end, room := at + n * neblock, maxbytes - nt0;
    PiecesInAll(n, neblock);
    SplitsLengthNone(codec, src[at..end], neblock, room);
    NoSplits(neblock);
    for j := 0 to n
      invariant nt <= nt0 + 4 * j + Pieces(j, neblock)
      invariant p == at + Pieces(j, neblock) <= end && nt0 <= nt && (if j > 0 then nt0 < nt <= maxbytes else nt == nt0)
      invariant nt <= dest.Length ==> ReadSplits(dest[nt0..nt], j, neblock) == Good(src[at..p], nt - nt0)
      invariant Pieces(j, neblock) <= |src[at..end]| && SplitsLength(codec, src[at..end], j, neblock, room) == nt - nt0
      invariant forall k :: 0 <= k < dest.Length && !(nt0 <= k < maxbytes) ==> dest[k] == old(dest[k])
    {
      PiecesGrow(j, n, neblock);
      var m := CompressNext(codec, j, n, neblock, src, at, p, end, dest, nt0, nt, maxbytes);
      if m == 0 {
        return 0;
      }
      nt, p := nt + m, p + neblock;
    }
    r := nt - nt0;
  }

  /** A split has been written behind `j` others. */
  lemma SplitAppended(d: seq<byte>, code: seq<byte>, nt0: nat, nt: nat, m: nat, j: nat, neblock: nat,
                      s: seq<byte>, at: nat, p: nat)
    requires nt0 <= nt && nt + m <= |d| && d[nt0..nt] == code && at <= p && p + neblock <= |s|
    requires ReadSplits(code, j, neblock) == Good(s[at..p], nt - nt0)
    requires ReadSplit(d[nt..nt + m], neblock) == Good(s[p..p + neblock], m)
    ensures ReadSplits(d[nt0..nt + m], j + 1, neblock) == Good(s[at..p + neblock], nt + m - nt0)
  {
    hide *;
    ReadSplitsAppend(code, d[nt..nt + m], j, neblock);
    SliceConcat(d, nt0, nt, nt + m);
    SliceConcat(s, at, p, p + neblock);
  }

  lemma SplitsLengthNone(codec: Codec, s: seq<byte>, neblock: nat, room: int)
    requires GoodCodec(codec) && neblock < 0x8000_0000
    ensures Pieces(0, neblock) == 0 && SplitsLength(codec, s, 0, neblock, room) == 0
  {
  }

  lemma NoSplits(neblock: nat)
    ensures ReadSplits([], 0, neblock) == Good([], 0)
  {
  }

  /** `r` is the length of the splits of a block, or 0 if they do not fit. */
  ghost predicate LengthIs(codec: Codec, s: seq<byte>, n: nat, neblock: nat, room: int, r: nat) {
    && GoodCodec(codec) && neblock < 0x8000_0000 && Pieces(n, neblock) == |s|
    && SplitsLength(codec, s, n, neblock, room) == if r == 0 then -1 else r
  }

  /** blosc_c: filter and code the block at `offset` of the chunk; the code begins at
      `nt0` of the destination. The result is its length, 0 if it does not fit, or -9 for
      an unknown filter. */
  method CompressBlock(codec: Codec, filters: seq<nat>, ts: nat, split: bool, bsize: nat,
                       leftover: bool, nt0: nat, maxbytes: nat, chunk: array<byte>, offset: nat,
                       dest: array<byte>, tmp: array<byte>, tmp2: array<byte>, tmp4: array<byte>)
    returns (r: int, ghost st: seq<seq<byte>>)
    requires GoodCodec(codec) && ts > 0 && Slots(filters) && 0 < bsize < 0x8000_0000
    requires offset + bsize <= chunk.Length && bsize <= tmp.Length && bsize <= tmp2.Length && bsize <= tmp4.Length
    requires maxbytes <= dest.Length && Divides(ts, split, leftover, bsize)
    requires chunk != dest && chunk != tmp && chunk != tmp2 && chunk != tmp4 && dest != tmp && dest != tmp2 && dest != tmp4
    requires tmp != tmp2 && tmp != tmp4 && tmp2 != tmp4
    requires DELTA in filters && offset == 0 ==> Delta.WordSize(ts) <= bsize
    modifies dest, tmp, tmp2, tmp4
    ensures if Known(filters) then r >= 0 else r == -9
    ensures r == 0 ==> maxbytes < nt0 + 4 * Splits(ts, split, leftover) + bsize
    ensures r > 0 ==>
              && nt0 + r <= maxbytes && Stages(filters, ts, chunk[..], offset, st) && |st| == MAX_FILTERS + 1
              && st[0] == chunk[offset..offset + bsize]
              && ReadSplits(dest[nt0..nt0 + r], Splits(ts, split, leftover), bsize / Splits(ts, split, leftover))
                 == Good(st[MAX_FILTERS], r)
    ensures r >= 0 ==>
              && Stages(filters, ts, chunk[..], offset, st) && |st| == MAX_FILTERS + 1
              && st[0] == chunk[offset..offset + bsize]
              && LengthIs(codec, st[MAX_FILTERS], Splits(ts, split, leftover), bsize / Splits(ts, split, leftover), maxbytes - nt0, r)
    ensures forall k :: 0 <= k < dest.Length && !(nt0 <= k < maxbytes) ==> dest[k] == old(dest[k])
  {
    hide Stages, ReadSplits, GoodCodec, Known, Delta.WordSize, Splits, SplitsLength, Pieces, LengthIs;
    var ok, out, at;
    ok, out, at, st := PipelineC(filters, ts, bsize, chunk, offset, tmp, tmp2, tmp4);
    if !ok {
      return -9, st;
    }
    var n := Splits(ts, split, leftover);
    PiecesMake(bsize, n);
    PieceSize(bsize, n);
    r := CompressSplits(codec, n, bsize / n, out, at, dest, nt0, maxbytes);
    IsLength(codec, st[MAX_FILTERS], n, bsize / n, maxbytes - nt0, r);
  }

  lemma IsLength(codec: Codec, s: seq<byte>, n: nat, neblock: nat, room: int, r: nat)
    requires GoodCodec(codec) && neblock < 0x8000_0000 && Pieces(n, neblock) == |s|
    requires SplitsLength(codec, s, n, neblock, room) == if r == 0 then -1 else r
    ensures LengthIs(codec, s, n, neblock, room, r)
  {
  }

  lemma PieceSize(bsize: nat, n: nat)
    requires 0 < bsize && n > 0 && bsize % n == 0
    ensures 0 < bsize / n <= bsize
  {
    PiecesMake(bsize, n);
    ProductGrows(1, n, bsize / n);
  }

  // ----- Decompression -----

  lemma SplitMeans(s: seq<byte>, neblock: nat)
    requires ReadSplit(s, neblock) != Outside
    ensures |s| >= 4 && ReadLE32(s[0..4]) < 0x8000_0000 && 4 + ReadLE32(s[0..4]) <= |s|
    ensures var c := ReadLE32(s[0..4]);
            var body := s[4..4 + c];
            if c == neblock then ReadSplit(s, neblock) == Good(body, 4 + c)
            else
              && Decode(body, neblock) != Overrun
              && var ok := Decode(body, neblock).Done? && |Decode(body, neblock).bytes| == neblock;
              ReadSplit(s, neblock) == if ok then Good(Decode(body, neblock).bytes, 4 + c) else BadData
  {
    hide Decode, ReadLE32;
    ReadLE32Prefix(s, 4);
    assert s[0..4] == s[..4];
  }

  /** The call of blosclz_decompress, whose block copies may read a few bytes behind the
      stream. */
  method RunDecoder(body: seq<byte>, neblock: nat) returns (ok: bool, bytes: seq<byte>)
    requires Decode(body, neblock) != Overrun && 0 < neblock
    ensures ok <==> Decode(body, neblock).Done? && |Decode(body, neblock).bytes| == neblock
    ensures ok ==> bytes == Decode(body, neblock).bytes
  {
    hide Decode;
    var input := new byte[|body| + 7](i requires 0 <= i < |body| + 7 => if i < |body| then body[i] else 0);
    var output := new byte[neblock];
    assert input[..|body|] == body;
    var nbytes := BloscLzDecoder.Decompress(input, |body|, output, neblock);
    ok := nbytes == neblock;
    bytes := output[..];
    assert output[..neblock] == output[..];
  }

  /** The loop body of blosc_d: the split at `sp` of the chunk goes to `dp`; 0 if the codec
      fails. */
  method DecompressSplit(src: array<byte>, sp: nat, neblock: nat, dst: array<byte>, dp: nat) returns (used: nat)
    requires src != dst && sp <= src.Length && dp + neblock <= dst.Length && 0 < neblock
    requires ReadSplit(src[sp..], neblock) != Outside
    modifies dst
    ensures var r := ReadSplit(src[sp..], neblock);
            if r.Good? then used == r.used > 0 && dst[dp..dp + neblock] == r.bytes else used == 0
    ensures forall k :: 0 <= k < dst.Length && !(dp <= k < dp + neblock) ==> dst[k] == old(dst[k])
  {
    hide *;
    ghost var s := src[sp..];
    SplitMeans(s, neblock);
    assert src[..][sp..] == s;
    SliceOfTail(src[..], sp, 0, 4);
    assert src[sp..sp + 4] == s[0..4];
    var cbytes := ReadLE32(src[sp..sp + 4]);
    SliceOfTail(src[..], sp, 4, 4 + cbytes);
    assert src[sp + 4..sp + 4 + cbytes] == s[4..4 + cbytes];
    var piece := src[sp + 4..sp + 4 + cbytes];
    if cbytes != neblock {
      var ok, bytes := RunDecoder(piece, neblock);
      if !ok {
        return 0;
      }
      piece := bytes;
    }
    forall k | 0 <= k < neblock {
      dst[dp + k] := piece[k];
    }
    used := 4 + cbytes;
    assert src[sp..] == s && dst[dp..dp + neblock] == piece;
  }

  lemma {:induction false} ReadSplitsFirst(s: seq<byte>, j: nat, n: nat, neblock: nat)
    requires j < n && ReadSplits(s, n, neblock) != Outside && ReadSplits(s, j, neblock).Good?
    ensures var u := ReadSplits(s, j, neblock).used;
            var e := ReadSplit(s[u..], neblock);
            && e != Outside
            && (e.Good? ==> ReadSplits(s, j + 1, neblock) == Good(ReadSplits(s, j, neblock).bytes + e.bytes, u + e.used))
            && (!e.Good? ==> ReadSplits(s, n, neblock) == e)
  {
    hide ReadSplit;
    if j == 0 {
      assert s[0..] == s;
      var e := ReadSplit(s, neblock);
      if e.Good? {
        assert [] + e.bytes == e.bytes == e.bytes + [];
      }
    } else {
      var f := ReadSplit(s, neblock);
      var rest := s[f.used..];
      ReadSplitsFirst(rest, j - 1, n - 1, neblock);
      var u := ReadSplits(rest, j - 1, neblock).used;
      assert rest[u..] == s[f.used + u..];
      var e := ReadSplit(rest[u..], neblock);
      if e.Good? {
        ConcatAssoc(f.bytes, ReadSplits(rest, j - 1, neblock).bytes, e.bytes);
      }
    }
  }

  /** The splits of the block at `sp` of the chunk, one after another, to `dp`. */
  method DecompressSplits(src: array<byte>, sp: nat, n: nat, neblock: nat, dst: array<byte>, dp: nat) returns (ok: bool)
    requires src != dst && sp <= src.Length && dp + n * neblock <= dst.Length && 0 < neblock
    requires ReadSplits(src[sp..], n, neblock) != Outside
    modifies dst
    ensures var r := ReadSplits(src[sp..], n, neblock);
            if r.Good? then ok && dst[dp..dp + n * neblock] == r.bytes else !ok
    ensures forall k :: 0 <= k < dst.Length && !(dp <= k < dp + n * neblock) ==> dst[k] == old(dst[k])
  {
    hide *;
    ghost var s, end := src[sp..], dp + n * neblock;
    PiecesInAll(n, neblock);
    var p: nat, q: nat := sp, dp;
    NoSplitsYet(s, neblock);
    assert dst[dp..dp] == [];
    for j := 0 to n
      invariant q == dp + Pieces(j, neblock) && q <= end && sp <= p <= src.Length
      invariant ReadSplits(s, j, neblock) == Good(dst[dp..q], p - sp)
      invariant forall k :: 0 <= k < dst.Length && !(dp <= k < end) ==> dst[k] == old(dst[k])
    {
      PiecesGrow(j, n, neblock);
      ReadSplitsFirst(s, j, n, neblock);
      assert s[p - sp..] == src[p..];
      ghost var before := dst[dp..q];
      var used := DecompressSplit(src, p, neblock, dst, q);
      if used == 0 {
        return false;
      }
      SplitInside(s[p - sp..], neblock);
      assert dst[dp..q + neblock] == before + dst[q..q + neblock] by {
        assert dst[dp..q] == before;
        SliceConcat(dst[..], dp, q, q + neblock);
      }
      p, q := p + used, q + neblock;
    }
    ok := true;
  }

  lemma NoSplitsYet(s: seq<byte>, neblock: nat)
    ensures ReadSplits(s, 0, neblock) == Good([], 0)
  {
  }

  lemma SplitInside(s: seq<byte>, neblock: nat)
    ensures ReadSplit(s, neblock).Good? ==> ReadSplit(s, neblock).used <= |s|
  {
  }

  /** The first part of blosc_d: the splits go to the place of the block if the delta
      filter is the only one or there is none, and otherwise to a buffer. */
  method DecodeSplits(filters: seq<nat>, ts: nat, split: bool, bsize: nat, leftover: bool,
                      src: array<byte>, sp: nat, dest: array<byte>, offset: nat, tmp: array<byte>)
    returns (ok: bool, last: int)
    requires ts > 0 && |filters| == MAX_FILTERS && Divides(ts, split, leftover, bsize) && 0 < bsize
    requires sp <= src.Length && offset + bsize <= dest.Length && bsize <= tmp.Length
    requires src != dest && src != tmp && dest != tmp
    requires ReadSplits(src[sp..], Splits(ts, split, leftover), bsize / Splits(ts, split, leftover)) != Outside
    modifies dest, tmp
    ensures IsLast(filters, last)
    ensures var code := ReadSplits(old(src[sp..]), Splits(ts, split, leftover), bsize / Splits(ts, split, leftover));
            && ok == code.Good?
            && (ok ==> code.bytes == if last >= 0 && NextFilter(filters, MAX_FILTERS) != DELTA then tmp[0..bsize]
                                     else dest[offset..offset + bsize])
    ensures forall k :: 0 <= k < dest.Length && !(offset <= k < offset + bsize) ==> dest[k] == old(dest[k])
  {
    hide ReadSplits, Splits, NextFilter, IsLast;
    var n := Splits(ts, split, leftover);
    PiecesMake(bsize, n);
    PieceSize(bsize, n);
    last := LastFilter(filters);
    var f := FindNext(filters, MAX_FILTERS);
    if last >= 0 && f != DELTA {
      ok := DecompressSplits(src, sp, n, bsize / n, tmp, 0);
    } else {
      ok := DecompressSplits(src, sp, n, bsize / n, dest, offset);
    }
  }

  /** blosc_d: decode the block whose code begins at `sp` of the chunk and undo its
      filters; the result is its length, or -2 if the codec fails. */
  method DecompressBlock(filters: seq<nat>, ts: nat, split: bool, bsize: nat, leftover: bool,
                         src: array<byte>, sp: nat, dest: array<byte>, offset: nat,
                         tmp: array<byte>, tmp2: array<byte>, tmp4: array<byte>,
                         ghost ref: seq<byte>, ghost st: seq<seq<byte>>)
    returns (r: int)
    requires ts > 0 && Known(filters) && Ordered(filters) && KeepsAll(filters, ts, bsize) && bsize <= |ref|
    requires Divides(ts, split, leftover, bsize) && sp <= src.Length && offset + bsize <= dest.Length && 0 < bsize
    requires bsize <= tmp.Length && bsize <= tmp2.Length && bsize <= tmp4.Length
    requires src != dest && src != tmp && dest != tmp && dest != tmp2 && dest != tmp4
    requires tmp != tmp2 && tmp != tmp4 && tmp2 != tmp4
    requires Stages(filters, ts, ref, offset, st) && |st| == MAX_FILTERS + 1 && |st[0]| == bsize
    requires var n := Splits(ts, split, leftover);
             var code := ReadSplits(src[sp..], n, bsize / n);
             code == BadData || (code.Good? && code.bytes == st[MAX_FILTERS])
    requires DELTA in filters ==>
               if offset == 0 then st[0] == ref[..bsize] && Delta.WordSize(ts) <= bsize
               else bsize <= offset && dest[..bsize] == ref[..bsize]
    modifies dest, tmp, tmp2, tmp4
    ensures if ReadSplits(old(src[sp..]), Splits(ts, split, leftover), bsize / Splits(ts, split, leftover)).Good?
            then r == bsize && dest[offset..offset + bsize] == st[0]
            else r == -2
    ensures forall k :: 0 <= k < dest.Length && !(offset <= k < offset + bsize) ==> dest[k] == old(dest[k])
  {
    hide Stages, ReadSplits, Delta.WordSize, Splits, KeepsAll, Ordered, NextFilter, IsLast, Divides;
    var ok, last := DecodeSplits(filters, ts, split, bsize, leftover, src, sp, dest, offset, tmp);
    if !ok {
      return -2;
    }
    if last >= 0 {
      PipelineD(filters, ts, bsize, dest, offset, tmp, tmp2, tmp4, last, ref, st);
    } else {
      NoFilters(filters, last);
      StagesSame(filters, ts, ref, offset, st, 0, MAX_FILTERS);
    }
    r := bsize;
  }

  /** blosc_d in a job of several threads, as far as the delta filter, where it can have to
      wait; without that filter the block is done. */
  method DecodeToDelta(filters: seq<nat>, ts: nat, split: bool, bsize: nat, leftover: bool,
                       src: array<byte>, sp: nat, dest: array<byte>, offset: nat,
                       tmp: array<byte>, tmp2: array<byte>, tmp4: array<byte>,
                       ghost ref: seq<byte>, ghost st: seq<seq<byte>>)
    returns (r: int)
    requires ts > 0 && Known(filters) && Ordered(filters) && KeepsAll(filters, ts, bsize)
    requires Divides(ts, split, leftover, bsize) && sp <= src.Length && offset + bsize <= dest.Length && 0 < bsize
    requires bsize <= tmp.Length && bsize <= tmp2.Length && bsize <= tmp4.Length
    requires src != dest && src != tmp && dest != tmp && dest != tmp2 && dest != tmp4
    requires tmp != tmp2 && tmp != tmp4 && tmp2 != tmp4
    requires Stages(filters, ts, ref, offset, st) && |st| == MAX_FILTERS + 1 && |st[0]| == bsize
    requires var n := Splits(ts, split, leftover);
             var code := ReadSplits(src[sp..], n, bsize / n);
             code == BadData || (code.Good? && code.bytes == st[MAX_FILTERS])
    modifies dest, tmp, tmp2, tmp4
    ensures if ReadSplits(old(src[sp..]), Splits(ts, split, leftover), bsize / Splits(ts, split, leftover)).Good?
            then r == bsize && dest[offset..offset + bsize] == st[LeftForDelta(filters)]
            else r == -2
    ensures forall k :: 0 <= k < dest.Length && !(offset <= k < offset + bsize) ==> dest[k] == old(dest[k])
  {
    hide Stages, ReadSplits, Splits, KeepsAll, Ordered, NextFilter, IsLast, Divides, LeftForDelta;
    var ok, last := DecodeSplits(filters, ts, split, bsize, leftover, src, sp, dest, offset, tmp);
    if !ok {
      return -2;
    }
    if last >= 0 {
      PipelineToDelta(filters, ts, bsize, dest, offset, tmp, tmp2, tmp4, last, ref, st);
    } else {
      NoFilters(filters, last);
      StagesSame(filters, ts, ref, offset, st, 0, MAX_FILTERS);
    }
    r := bsize;
  }

  lemma NoFilters(filters: seq<nat>, last: int)
    requires IsLast(filters, last) && last < 0
    ensures forall j :: 0 <= j < |filters| ==> filters[j] == NOFILTER
  {
  }
}
