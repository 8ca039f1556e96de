/** The parameters of a chunk: the choice of the block size (c-blosc2/blosc/btune.c:40-115),
    whether blocks are split (c-blosc2/blosc/blosc.c:1260-1271), and the header that
    records them (blosc.c:1096-1132, 1213-1258, 1274-1395; README_HEADER.rst). */
module BloscHeader {
  import opened Bytes
  import opened Arithmetic
  import opened LittleEndian
  import opened Filters

  const MIN_BUFFERSIZE := 128
  const MAX_BUFFERSIZE := 0x7FFF_FFFF - 16
  const MAX_OVERHEAD := 16
  const MIN_HEADER := 16
  const EXTENDED_HEADER := 32
  const L1 := 32 * 1024
  const MAX_SPLITS := 16

  // ----- Block size -----

  /** The block size of each compression level, for a buffer that is at least as large as the
      first level of the cache; with a codec of high compression ratio it is twice as large,
      and at the highest level four times. */
  ghost predicate BlocksizeOfLevel(clevel: nat, hcr: bool, blocksize: nat) {
    match clevel
    case 0 => blocksize == if hcr then 0x4000 else 0x2000
    case 5 => blocksize == if hcr then 0x2_0000 else 0x1_0000
    case 6 => blocksize == if hcr then 0x4_0000 else 0x2_0000
    case 7 => blocksize == if hcr then 0x8_0000 else 0x4_0000
    case 8 => blocksize == if hcr then 0x8_0000 else 0x4_0000
    case 9 => blocksize == if hcr then 0x10_0000 else 0x4_0000
    case _ => blocksize == if hcr then 0x1_0000 else 0x8000
  }

  /** A block size, no larger than the buffer and in whole elements if it holds any. */
  ghost predicate Trimmed(wish: nat, typesize: nat, nbytes: nat, blocksize: nat)
    requires typesize > 0
  {
    var most := if wish > nbytes then nbytes else wish;
    if most < typesize then blocksize == most else blocksize % typesize == 0 && most < blocksize + typesize && blocksize <= most
  }

  /** btune_cparams. */
  method TuneBlocksize(clevel: nat, typesize: nat, nbytes: nat, user: nat, hcr: bool) returns (blocksize: nat)
    requires typesize > 0 && clevel <= 9
    ensures nbytes < typesize ==> blocksize == 1
    ensures typesize <= nbytes ==> 0 < blocksize <= nbytes
    ensures typesize <= nbytes ==> blocksize < typesize || blocksize % typesize == 0
    ensures typesize <= nbytes && user == 0 && nbytes >= L1 ==>
              exists wish: nat :: BlocksizeOfLevel(clevel, hcr, wish) && Trimmed(wish, typesize, nbytes, blocksize)
    ensures typesize <= nbytes && user == 0 && nbytes < L1 ==> Trimmed(nbytes, typesize, nbytes, blocksize)
    ensures typesize <= nbytes && user > 0 ==>
              Trimmed(if user < MIN_BUFFERSIZE then MIN_BUFFERSIZE else user, typesize, nbytes, blocksize)
    ensures typesize <= nbytes && MIN_BUFFERSIZE <= nbytes ==> blocksize >= MIN_BUFFERSIZE / 2
    ensures typesize <= nbytes && typesize < 256 && (user == 0 || typesize <= user || typesize <= MIN_BUFFERSIZE) ==>
              blocksize % typesize == 0
  {
    if nbytes < typesize {
      return 1;
    }
    blocksize := nbytes;
    if user > 0 {
      blocksize := user;
      if blocksize < MIN_BUFFERSIZE {
        blocksize := MIN_BUFFERSIZE;
      }
    } else if nbytes >= L1 {
      blocksize := L1;
      if hcr {
        blocksize := blocksize * 2;
      }
      match clevel {
        case 0 => blocksize := blocksize / 4;
        case 5 => blocksize := blocksize * 2;
        case 6 => blocksize := blocksize * 4;
        case 7 => blocksize := blocksize * 8;
        case 8 => blocksize := blocksize * 8;
        case 9 =>
          blocksize := blocksize * 8;
          if hcr {
            blocksize := blocksize * 2;
          }
        case _ =>
      }
    }
    ghost var wish := blocksize;
    assert user == 0 && nbytes >= L1 ==> BlocksizeOfLevel(clevel, hcr, wish);
    if blocksize > nbytes {
      blocksize := nbytes;
    }
    if blocksize > typesize {
      Rounded(blocksize, typesize);
      blocksize := blocksize / typesize * typesize;
    } else if blocksize == typesize {
      DivUnique(blocksize, typesize, 1, 0);
    }
  }

  lemma Rounded(n: nat, m: nat)
    requires 0 < m < n
    ensures 0 < n / m * m <= n && (n / m * m) % m == 0
    ensures 2 * (n / m * m) >= n
    ensures n < n / m * m + m
  {
    assert n == m * (n / m) + n % m;
    ProductGrows(1, n / m, m);
    DivUnique(n / m * m, m, n / m, 0);
  }

  /** split_block, for BloscLZ. */
  predicate SplitBlock(typesize: nat, blocksize: nat)
    requires typesize > 0
  {
    typesize <= MAX_SPLITS && blocksize / typesize >= MIN_BUFFERSIZE
  }

  /** A block size that is split has been made a multiple of the type size. */
  lemma SplitIsMultiple(typesize: nat, blocksize: nat)
    requires typesize > 0 && SplitBlock(typesize, blocksize)
    requires blocksize < typesize || blocksize % typesize == 0
    ensures blocksize % typesize == 0
  {
    if blocksize < typesize {
      DivUnique(blocksize, typesize, 0, blocksize);
    }
  }

  // ----- The header -----

  /** What a header says, apart from the size of the chunk. */
  datatype Params = Params(extended: bool, typesize: nat, sourcesize: nat, blocksize: nat, filters: seq<nat>,
                           meta: seq<byte>, memcpyed: bool, split: bool)

  predicate GoodParams(p: Params) {
    && 0 < p.typesize < 256 && p.sourcesize <= MAX_BUFFERSIZE && 0 < p.blocksize < 0x8000_0000
    && |p.filters| == MAX_FILTERS && |p.meta| == MAX_FILTERS
    && forall i :: 0 <= i < MAX_FILTERS ==> p.filters[i] < 256
  }

  /** The filters that a header without room for the pipeline can tell: a shuffle in the
      last slot and the delta filter in the one before. */
  predicate Classic(p: Params) {
    && |p.filters| == MAX_FILTERS
    && p.filters[..3] == [NOFILTER, NOFILTER, NOFILTER]
    && (p.filters[3] == NOFILTER || p.filters[3] == DELTA) && p.filters[4] <= BITSHUFFLE
    && p.meta == [0, 0, 0, 0, 0]
  }

  function Flag(on: bool, bit: nat): nat {
    if on then bit else 0
  }

  /** filters_to_flags and the other flags. */
  function Flags(p: Params): (b: byte) {
    Flag(p.extended || SHUFFLE in p.filters, 1) + Flag(p.memcpyed, 2) + Flag(p.extended || BITSHUFFLE in p.filters, 4)
    + Flag(DELTA in p.filters, 8) + Flag(!p.split, 16)
  }

  function HeaderLength(extended: bool): nat {
    if extended then EXTENDED_HEADER else MIN_HEADER
  }

  /** The part of the header that every chunk has. The size of the chunk, at 12, is filled
      in at the end. */
  ghost predicate HeaderBase(h: seq<byte>, p: Params)
    requires GoodParams(p)
  {
    && |h| >= MIN_HEADER && h[..4] == [3, 1, Flags(p), p.typesize]
    && h[4..8] == WriteLE32(p.sourcesize) && h[8..12] == WriteLE32(p.blocksize)
  }

  /** What write_compression_header writes. The bytes beside the five filters and their
      metadata are not its business. */
  ghost predicate HeaderIs(h: seq<byte>, p: Params)
    requires GoodParams(p)
  {
    && |h| >= HeaderLength(p.extended) && HeaderBase(h, p)
    && (p.extended ==> h[16..21] == FilterBytes(p.filters) && h[24..29] == p.meta)
  }

  function FilterBytes(filters: seq<nat>): (b: seq<byte>)
    requires forall i :: 0 <= i < |filters| ==> filters[i] < 256
    ensures |b| == |filters|
  {
    seq(|filters|, i requires 0 <= i < |filters| => filters[i])
  }

  /** flags_to_filters, on an array of zeros. */
  function FlagsToFilters(flags: byte): (f: seq<nat>)
    ensures |f| == MAX_FILTERS
  {
    [NOFILTER, NOFILTER, NOFILTER, if flags / 8 % 2 == 1 then DELTA else NOFILTER,
     if flags / 4 % 2 == 1 then BITSHUFFLE else if flags % 2 == 1 then SHUFFLE else NOFILTER]
  }

  /** initialize_context_decompression, as far as the header goes. */
  function ReadHeader(h: seq<byte>): (p: Params)
    requires ReadHeaderFits(h)
    ensures |p.filters| == MAX_FILTERS
  {
    var extended := h[2] % 2 == 1 && h[2] / 4 % 2 == 1;
    var filters: seq<nat> :=
      if extended then seq(MAX_FILTERS, i requires 0 <= i < MAX_FILTERS => h[MIN_HEADER + i] as nat) else FlagsToFilters(h[2]);
    Params(extended, h[3], ReadLE32(h[4..8]), ReadLE32(h[8..12]), filters,
           if extended then h[24..29] else [0, 0, 0, 0, 0], h[2] / 2 % 2 == 1, h[2] / 16 % 2 == 0)
  }

  lemma FlagsTell(p: Params)
    ensures Flags(p) % 2 == 1 <==> p.extended || SHUFFLE in p.filters
    ensures Flags(p) / 2 % 2 == 1 <==> p.memcpyed
    ensures Flags(p) / 4 % 2 == 1 <==> p.extended || BITSHUFFLE in p.filters
    ensures Flags(p) / 8 % 2 == 1 <==> DELTA in p.filters
    ensures Flags(p) / 16 % 2 == 0 <==> p.split
  {
  }

  /** The sizes and the flags can be read back from any chunk. */
  lemma BaseRoundTrip(p: Params, h: seq<byte>)
    requires GoodParams(p) && HeaderBase(h, p) && |h| >= HeaderLength(p.extended) && (p.extended || Classic(p))
    ensures ReadHeaderFits(h)
    ensures ReadHeader(h) == p.(filters := ReadHeader(h).filters, meta := ReadHeader(h).meta)
    ensures !p.extended ==> ReadHeader(h) == p
  {
    hide ReadLE32, WriteLE32, Flags, FlagsToFilters;
    FlagsTell(p);
    LE32RoundTrip(p.sourcesize);
    LE32RoundTrip(p.blocksize);
    assert h[2] == h[..4][2] == Flags(p) && h[3] == h[..4][3] == p.typesize;
    if !p.extended {
      ClassicFilters(p);
    }
  }

  /** The header tells the decompressor the parameters of the compressor: all of them if it
      is extended, and otherwise if the pipeline is one that its flags can tell. */
  lemma HeaderRoundTrip(p: Params, h: seq<byte>)
    requires GoodParams(p) && HeaderIs(h, p) && (p.extended || Classic(p))
    ensures ReadHeaderFits(h) && ReadHeader(h) == p
  {
    hide HeaderBase, Flags, FlagsToFilters;
    BaseRoundTrip(p, h);
    if p.extended {
      assert forall i :: 0 <= i < MAX_FILTERS ==> h[MIN_HEADER + i] == h[16..21][i];
      assert ReadHeader(h).filters == p.filters;
    }
  }

  predicate ReadHeaderFits(h: seq<byte>) {
    |h| >= MIN_HEADER && (h[2] % 2 == 1 && h[2] / 4 % 2 == 1 ==> |h| >= EXTENDED_HEADER)
  }

  lemma ClassicFilters(p: Params)
    requires Classic(p) && !p.extended
    ensures FlagsToFilters(Flags(p)) == p.filters
    ensures !(Flags(p) % 2 == 1 && Flags(p) / 4 % 2 == 1)
  {
    hide Flags;
    FlagsTell(p);
    assert p.filters[0] == p.filters[..3][0] && p.filters[1] == p.filters[..3][1] && p.filters[2] == p.filters[..3][2];
  }

  /** _sw32: store a number in four bytes. */
  method StoreLE32(dest: array<byte>, at: nat, v: nat)
    requires at + 4 <= dest.Length && v < 0x1_0000_0000
    modifies dest
    ensures dest[at..at + 4] == WriteLE32(v)
    ensures forall k :: 0 <= k < dest.Length && !(at <= k < at + 4) ==> dest[k] == old(dest[k])
  {
    hide WriteLE32;
    var b := WriteLE32(v);
    forall k | 0 <= k < 4 {
      dest[at + k] := b[k];
    }
  }

  lemma SameBeginning(d: seq<byte>, h: seq<byte>, a: nat, b: nat)
    requires a <= b <= |h| <= |d| && d[..|h|] == h
    ensures d[a..b] == h[a..b]
  {
    SliceOfSlice(d, a, b, |h|);
  }

  /** write_compression_header. */
  method WriteHeader(p: Params, dest: array<byte>)
    requires GoodParams(p) && HeaderLength(p.extended) <= dest.Length
    modifies dest
    ensures HeaderIs(dest[..], p)
    ensures forall k :: HeaderLength(p.extended) <= k < dest.Length ==> dest[k] == old(dest[k])
  {
    hide WriteLE32, Flags, FilterBytes;
    StoreBase(p, dest);
    ghost var h := dest[..12];
    if p.extended {
      var f := FilterBytes(p.filters);
      forall i | 0 <= i < MAX_FILTERS {
        dest[16 + i] := f[i];
      }
      forall i | 0 <= i < MAX_FILTERS {
        dest[24 + i] := p.meta[i];
      }
      assert dest[16..21] == f && dest[24..29] == p.meta;
    }
    assert dest[..][..12] == h;
    SameBeginning(dest[..], h, 4, 8);
    SameBeginning(dest[..], h, 8, 12);
    SameBeginning(dest[..], h, 0, 4);
  }

  /** What all headers begin with. */
  method StoreBase(p: Params, dest: array<byte>)
    requires GoodParams(p) && 12 <= dest.Length
    modifies dest
    ensures dest[..12][0..4] == [3, 1, Flags(p), p.typesize]
    ensures dest[..12][4..8] == WriteLE32(p.sourcesize) && dest[..12][8..12] == WriteLE32(p.blocksize)
    ensures forall k :: 12 <= k < dest.Length ==> dest[k] == old(dest[k])
  {
    hide WriteLE32, Flags, FilterBytes;
    dest[0], dest[1], dest[2], dest[3] := 3, 1, Flags(p), p.typesize;
    assert dest[0..4] == [3, 1, Flags(p), p.typesize];
    StoreLE32(dest, 4, p.sourcesize);
    assert dest[0..4] == [3, 1, Flags(p), p.typesize];
    StoreLE32(dest, 8, p.blocksize);
    SliceOfSlice(dest[..], 0, 4, 12);
    SliceOfSlice(dest[..], 4, 8, 12);
    SliceOfSlice(dest[..], 8, 12, 12);
  }

  /** Marking the chunk as copied changes the flags and nothing else. */
  method MarkCopied(p: Params, dest: array<byte>)
    requires GoodParams(p) && HeaderLength(p.extended) <= dest.Length && HeaderIs(dest[..], p)
    modifies dest
    ensures HeaderIs(dest[..], p.(memcpyed := true))
    ensures forall k :: 0 <= k < dest.Length && k != 2 ==> dest[k] == old(dest[k])
  {
    hide WriteLE32, FilterBytes;
    FlagsTell(p);
    if dest[2] / 2 % 2 == 0 {
      dest[2] := dest[2] + 2;
    }
  }
}
