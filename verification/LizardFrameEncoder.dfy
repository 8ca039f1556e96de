/** The frame compressor in independent-block mode: LizardF_compressBegin, Update,
    flush, End (c-blosc2/internal-complibs/lizard-1.0/lizard_frame.c:227-670). */
module LizardFrameEncoder {
  import opened Bytes
  import opened Arithmetic
  import opened LittleEndian
  import opened LizardFrameSpec

  /** The block compressor, called for the n-th time. What it makes of a block can depend on
      what it did before: its hash table is never initialised. */
  type Compressor = (nat, seq<byte>) -> seq<byte>

  /** What the frame layer needs of the block compressor called with a capacity of one
      byte less than the source: nothing at all, or a block that decodes to the source.
      A source of one byte, whose capacity is 0, is the exception to the capacity: it
      always comes back as six bytes (lizard_compress.c:235-244). */
  ghost predicate BlockCodec(env: Env, compress: Compressor) {
    forall n: nat, s: seq<byte> :: GoodBlock(env, s, compress(n, s))
  }

  ghost predicate GoodBlock(env: Env, s: seq<byte>, c: seq<byte>) {
    s != [] ==>
      && (if |s| == 1 then |c| == 6 else |c| < |s|)
      && (c != [] ==> forall cap: nat :: |s| <= cap ==> env.decode(c, cap) == Done(s))
  }

  /** A compressor that no block of more than one byte gets smaller with. */
  ghost predicate Stores(compress: Compressor) {
    forall n: nat, s: seq<byte> :: |s| > 1 ==> compress(n, s) == []
  }

  /** LizardF_preferences_t, as far as independent blocks go. */
  datatype Prefs = Prefs(blockSizeID: nat, checksum: bool, contentSize: nat, autoFlush: bool)

  function WithDefault(p: Prefs): Prefs {
    p.(blockSizeID := if p.blockSizeID == 0 then 1 else p.blockSizeID)
  }

  predicate GoodPrefs(p: Prefs) {
    1 <= p.blockSizeID <= 7 && p.contentSize < TWO64
  }

  /** The flag and block descriptor bytes, and the content size where it is given. */
  function Descriptor(p: Prefs): (b: seq<byte>)
    requires GoodPrefs(p)
    ensures |b| == if p.contentSize > 0 then 10 else 2
  {
    [64 + 32 + (if p.checksum then 4 else 0) + (if p.contentSize > 0 then 8 else 0), p.blockSizeID * 16]
    + (if p.contentSize > 0 then WriteLE64(p.contentSize) else [])
  }

  function HeaderBytes(env: Env, p: Prefs): (b: seq<byte>)
    requires GoodPrefs(p)
    ensures |b| == if p.contentSize > 0 then MAX_FH_SIZE else MIN_FH_SIZE
  {
    WriteLE32(MAGIC) + Descriptor(p) + [HeaderChecksum(env, Descriptor(p))]
  }

  /** The bytes of one block: compressed when that succeeds, as they are when not. */
  function BlockBytes(s: seq<byte>, c: seq<byte>): (b: seq<byte>)
    requires |s| < UNCOMPRESSED_FLAG && |c| < UNCOMPRESSED_FLAG
    ensures |b| == 4 + if c == [] then |s| else |c|
  {
    if c == [] then WriteLE32(|s| + UNCOMPRESSED_FLAG) + s else WriteLE32(|c|) + c
  }

  /** The source of a frame, cut into blocks, and what the compressor has made of each. */
  datatype Blocks = NoBlocks | Then(init: Blocks, s: seq<byte>, c: seq<byte>)

  ghost predicate Coded(env: Env, b: Blocks, max: nat) {
    b.Then? ==> Coded(env, b.init, max) && 1 <= |b.s| <= max && GoodBlock(env, b.s, b.c)
  }

  ghost function Content(b: Blocks): seq<byte> {
    if b.NoBlocks? then [] else Content(b.init) + b.s
  }

  ghost function BodyBytes(env: Env, b: Blocks): seq<byte>
    requires Coded(env, b, 0x1000_0000)
  {
    if b.NoBlocks? then [] else BodyBytes(env, b.init) + BlockBytes(b.s, b.c)
  }

  function EndBytes(env: Env, checksum: bool, content: seq<byte>): (b: seq<byte>)
    requires env.xxh(content) < 0x1_0000_0000
  {
    WriteLE32(0) + if checksum then WriteLE32(env.xxh(content)) else []
  }

  /** The frame state that a header announces. */
  function Announced(p: Prefs): Frame
    requires GoodPrefs(p)
  {
    Frame(BlockSize(p.blockSizeID), p.checksum, p.contentSize, [])
  }

  /** The last byte of a header is the second byte of the hash of what is between it and the
      magic number. */
  ghost predicate Sealed(env: Env, h: seq<byte>)
    requires Sane(env) && |h| >= MIN_FH_SIZE
  {
    h[|h| - 1] == WriteLE32(env.xxh(h[4..|h| - 1]))[1]
  }

  lemma HeaderSealed(env: Env, p: Prefs)
    requires GoodPrefs(p) && Sane(env)
    ensures HeaderBytes(env, p)[..4] == [0x06, 0x22, 0x4D, 0x18] && Sealed(env, HeaderBytes(env, p))
  {
    hide Descriptor;
    var h, d := HeaderBytes(env, p), Descriptor(p);
    assert h[..4] == WriteLE32(MAGIC) == [0x06, 0x22, 0x4D, 0x18];
    assert h[4..|h| - 1] == d;
  }

  lemma HeaderSettlesTo(env: Env, p: Prefs)
    requires GoodPrefs(p)
    ensures SettleHeader(env, HeaderBytes(env, p)) == NextBlock(Announced(p))
    ensures p.contentSize > 0 ==> WantsMore(env, HeaderBytes(env, p)[..MIN_FH_SIZE])
  {
    hide BlockSize, HeaderChecksum, ReadLE32, ReadLE64, WriteLE32, WriteLE64;
    var h, d := HeaderBytes(env, p), Descriptor(p);
    LE32RoundTrip(MAGIC);
    LE64RoundTrip(p.contentSize);
    assert h[..4] == WriteLE32(MAGIC);
    ReadLE32Prefix(h, 4);
    ReadLE32Prefix(h, MIN_FH_SIZE);
    assert h[4..|h| - 1] == d;
    assert h[4] == d[0] && h[5] == d[1];
    if p.contentSize > 0 {
      assert h[6..14] == WriteLE64(p.contentSize);
      assert h[..MIN_FH_SIZE][4] == h[4];
    }
  }

  /** The decoder reads back the header that was written. */
  lemma HeaderDecodes(env: Env, p: Prefs)
    requires GoodPrefs(p)
    ensures Moves(env, START, [], HeaderBytes(env, p), [], NextBlock(Announced(p)), [])
  {
    hide HeaderBytes, Announced, SettleHeader;
    var h := HeaderBytes(env, p);
    HeaderSettlesTo(env, p);
    HeaderMoves(env, h);
    HeaderSettles(env, h, NextBlock(Announced(p)));
    MovesOn(env, START, [], h, Collect(Header, |h|, h), [], NextBlock(Announced(p)), []);
  }

  /** The decoder reads back a block, compressed or not. */
  lemma BlockDecodes(env: Env, f: Frame, s: seq<byte>, c: seq<byte>)
    requires 1 <= |s| <= f.maxBlockSize && 6 <= f.maxBlockSize < UNCOMPRESSED_FLAG
    requires GoodBlock(env, s, c)
    ensures |c| < UNCOMPRESSED_FLAG
    ensures Moves(env, NextBlock(f), [], BlockBytes(s, c), s, NextBlock(f.(content := f.content + s)), [])
  {
    hide Run, Settle, ReadLE32, WriteLE32;
    var n := if c == [] then |s| + UNCOMPRESSED_FLAG else |c|;
    var head, body := WriteLE32(n), if c == [] then s else c;
    var f2 := f.(content := f.content + s);
    var st := if c == [] then Raw(f, |s|) else Collect(Block(f), |c|, []);
    LE32RoundTrip(n);
    CollectMoves(env, BlockHead(f), BH_SIZE, [], [], head);
    assert [] + head == head;
    BlockHeadSettles(env, f, head);
    MovesOn(env, NextBlock(f), [], head, Collect(BlockHead(f), BH_SIZE, head), [], st, []);
    if c == [] {
      RawMoves(env, f, |s|, s);
      RawSettles(env, f2);
      SettleMoves(env, Raw(f2, 0), [], [], NextBlock(f2), []);
      MovesCompose(env, st, [], s, s, Raw(f2, 0), [], [], [], NextBlock(f2), []);
      assert s + [] == s;
    } else {
      CollectMoves(env, Block(f), |c|, [], [], c);
      assert [] + c == c;
      BlockSettles(env, f, c);
      assert [] + s == s + [] + [];
      MovesOn(env, st, [], c, Collect(Block(f), |c|, c), s, NextBlock(f2), []);
    }
    MovesCompose(env, NextBlock(f), [], head, [], st, [], body, s, NextBlock(f2), []);
    assert [] + s == s;
  }

  lemma EndMark()
    ensures WriteLE32(0) == [0, 0, 0, 0]
  {
  }

  /** The decoder takes the end mark and the checksum, if the content has the size
      that was announced. */
  lemma EndDecodes(env: Env, f: Frame)
    requires Remaining(f) == 0 && env.xxh(f.content) < 0x1_0000_0000
    ensures Moves(env, NextBlock(f), [], EndBytes(env, f.checksum, f.content), [], START, [])
  {
    hide Run, Settle, ReadLE32, WriteLE32, Remaining;
    var mark: seq<byte> := [0, 0, 0, 0];
    EndMark();
    var st := if f.checksum then Collect(Suffix(f), 4, []) else START;
    CollectMoves(env, BlockHead(f), BH_SIZE, [], [], mark);
    assert [] + mark == mark;
    EndMarkMeans(env, f);
    MovesOn(env, NextBlock(f), [], mark, Collect(BlockHead(f), BH_SIZE, mark), [], st, []);
    if f.checksum {
      var sum := WriteLE32(env.xxh(f.content));
      LE32RoundTrip(env.xxh(f.content));
      CollectMoves(env, Suffix(f), 4, [], [], sum);
      assert [] + sum == sum;
      SuffixSettles(env, f, sum);
      MovesOn(env, st, [], sum, Collect(Suffix(f), 4, sum), [], START, []);
      MovesCompose(env, NextBlock(f), [], mark, [], st, [], sum, [], START, []);
    } else {
      assert mark + [] == mark;
    }
  }

  lemma {:induction false} BodyDecodes(env: Env, f: Frame, b: Blocks)
    requires Coded(env, b, f.maxBlockSize) && f.content == []
    requires 6 <= f.maxBlockSize <= 0x1000_0000
    ensures Coded(env, b, 0x1000_0000)
    ensures Moves(env, NextBlock(f), [], BodyBytes(env, b), Content(b),
                  NextBlock(f.(content := Content(b))), [])
  {
    hide Moves, BlockBytes, GoodBlock;
    if b.NoBlocks? {
      MovesNowhere(env, NextBlock(f), []);
    } else {
      BodyDecodes(env, f, b.init);
      var f1 := f.(content := Content(b.init));
      BlockDecodes(env, f1, b.s, b.c);
      MovesCompose(env, NextBlock(f), [], BodyBytes(env, b.init), Content(b.init), NextBlock(f1), [],
                   BlockBytes(b.s, b.c), b.s, NextBlock(f.(content := Content(b))), []);
    }
  }

  lemma CodecOn(env: Env, compress: Compressor, n: nat, s: seq<byte>)
    requires BlockCodec(env, compress)
    ensures GoodBlock(env, s, compress(n, s)) && (Stores(compress) && |s| > 1 ==> compress(n, s) == [])
  {
  }

  /** A whole frame. */
  ghost function FrameBytes(env: Env, p: Prefs, b: Blocks): seq<byte>
    requires Sane(env) && GoodPrefs(p) && Coded(env, b, 0x1000_0000)
  {
    HeaderBytes(env, p) + BodyBytes(env, b) + EndBytes(env, p.checksum, Content(b))
  }

  /** However the source was cut into blocks, the frame takes the decoder back to where
      a frame can start, and puts out the source. */
  lemma FrameDecodes(env: Env, p: Prefs, b: Blocks)
    requires Sane(env) && GoodPrefs(p) && Coded(env, b, BlockSize(p.blockSizeID))
    requires p.contentSize == 0 || p.contentSize == |Content(b)|
    ensures Coded(env, b, 0x1000_0000)
    ensures Moves(env, START, [], FrameBytes(env, p, b), Content(b), START, [])
  {
    hide Moves, HeaderBytes, EndBytes, BodyBytes;
    var f := Announced(p);
    var f2 := f.(content := Content(b));
    HeaderDecodes(env, p);
    BodyDecodes(env, f, b);
    EndDecodes(env, f2);
    var h, m, e := HeaderBytes(env, p), BodyBytes(env, b), EndBytes(env, p.checksum, Content(b));
    MovesCompose(env, START, [], h, [], NextBlock(f), [], m, Content(b), NextBlock(f2), []);
    assert [] + Content(b) == Content(b) && Content(b) + [] == Content(b);
    MovesCompose(env, START, [], h + m, Content(b), NextBlock(f2), [], e, [], START, []);
  }

  // ----- LizardF_compressBound and the contexts -----

  /** The bytes written so far are added to in two goes: `d` is the memory after the first
      and `e` after the second. */
  lemma WrittenTwice(d: seq<byte>, e: seq<byte>, w0: seq<byte>, w1: seq<byte>, w2: seq<byte>, dp: nat, n: nat, m: nat)
    requires |d| == |e| && dp + n + m <= |e| && w1 == w0 + d[dp..dp + n] && w2 == w1 + e[dp + n..dp + n + m]
    requires forall k :: dp <= k < dp + n ==> e[k] == d[k]
    ensures e[dp..dp + n] == d[dp..dp + n] && w2 == w0 + e[dp..dp + n + m]
  {
    assert e[dp..dp + n] == d[dp..dp + n];
    SliceConcat(e, dp, dp + n, dp + n + m);
    ConcatAssoc(w0, e[dp..dp + n], e[dp + n..dp + n + m]);
  }

  /** So is the source taken in. */
  lemma TakenTwice(s: seq<byte>, c0: seq<byte>, c1: seq<byte>, c2: seq<byte>, lo: nat, mid: nat, hi: nat)
    requires lo <= mid <= hi <= |s| && c1 == c0 + s[lo..mid] && c2 == c1 + s[mid..hi]
    ensures c2 == c0 + s[lo..hi]
  {
    SliceConcat(s, lo, mid, hi);
    ConcatAssoc(c0, s[lo..mid], s[mid..hi]);
  }

  /** The bytes after the last block. */
  function FrameEnd(p: Prefs): nat {
    4 + if p.checksum then 4 else 0
  }

  /** LizardF_compressBound. */
  function CompressBound(srcSize: nat, p: Prefs): nat
    requires GoodPrefs(p)
  {
    var blockSize := BlockSize(p.blockSizeID);
    var nbBlocks := srcSize / blockSize + 1;
    var lastBlockSize := if p.autoFlush then srcSize % blockSize else blockSize;
    4 * nbBlocks + blockSize * (nbBlocks - 1) + lastBlockSize + FrameEnd(p)
  }

  /** What a block of `n` bytes can take. */
  function BlockCost(n: nat): nat {
    4 + if n == 1 then 6 else n
  }

  lemma BlockBytesCost(env: Env, s: seq<byte>, c: seq<byte>)
    requires s != [] && GoodBlock(env, s, c) && |s| < UNCOMPRESSED_FLAG
    ensures |c| < UNCOMPRESSED_FLAG && |BlockBytes(s, c)| <= BlockCost(|s|)
    ensures |s| == 1 || c == [] ==> |BlockBytes(s, c)| == BlockCost(|s|)
  {
  }

  /** What the whole blocks in `n` bytes can take, and what is left over. */
  function WholeBlocks(n: nat, max: nat): nat
    requires max > 0
  {
    n - n % max + 4 * (n / max)
  }

  function Leftover(n: nat, max: nat): (r: nat)
    requires max > 0
    ensures r < max
  {
    n % max
  }

  lemma BlockStep(n: nat, max: nat)
    requires 0 < max <= n
    ensures WholeBlocks(n, max) == max + 4 + WholeBlocks(n - max, max)
    ensures Leftover(n, max) == Leftover(n - max, max)
  {
    var q, r := (n - max) / max, (n - max) % max;
    assert n == (q + 1) * max + r;
    DivUnique(n, max, q + 1, r);
  }

  lemma NoBlock(n: nat, max: nat)
    requires n < max
    ensures WholeBlocks(n, max) == 0 && Leftover(n, max) == n
  {
  }

  /** What an update can write, with `held` bytes held back and `n` bytes given. */
  function WorstUpdate(held: nat, n: nat, p: Prefs): nat
    requires GoodPrefs(p)
  {
    var max := BlockSize(p.blockSizeID);
    var r := Leftover(held + n, max);
    WholeBlocks(held + n, max) + if p.autoFlush && r > 0 then BlockCost(r) else 0
  }

  /** A last block of one byte for which the bound has no room: it takes ten bytes where
      five are reckoned with, and only four are to spare. */
  predicate Tight(srcSize: nat, p: Prefs)
    requires GoodPrefs(p)
  {
    p.autoFlush && !p.checksum && srcSize % BlockSize(p.blockSizeID) == 1
  }

  /** An update stays within LizardF_compressBound unless a block of one byte is left
      over, and then the worst case is exactly one byte more. */
  lemma WorstCase(held: nat, n: nat, p: Prefs)
    requires GoodPrefs(p) && held < BlockSize(p.blockSizeID) && (p.autoFlush ==> held == 0)
    ensures WorstUpdate(held, n, p) <= CompressBound(n, p) <==> !Tight(n, p)
    ensures Tight(n, p) ==> p.autoFlush && WorstUpdate(held, n, p) == CompressBound(n, p) + 1
  {
    hide BlockSize, WorstUpdate, CompressBound, Tight;
    var q, r := WorstParts(held, n, p);
  }

  /** The same sizes in terms of the number of blocks and of what is left over. */
  lemma WorstParts(held: nat, n: nat, p: Prefs) returns (q: nat, r: nat)
    requires GoodPrefs(p) && held < BlockSize(p.blockSizeID)
    ensures r < BlockSize(p.blockSizeID) && r <= n && (Tight(n, p) <==> p.autoFlush && !p.checksum && r == 1)
    ensures CompressBound(n, p)
         == 4 * q + 4 + (n - r) + (if p.autoFlush then r else BlockSize(p.blockSizeID)) + FrameEnd(p)
    ensures WorstUpdate(held, n, p)
         == if held + r < BlockSize(p.blockSizeID) then
              (n - r) + 4 * q + if p.autoFlush && held + r > 0 then BlockCost(held + r) else 0
            else
              (n - r + BlockSize(p.blockSizeID)) + 4 * q + 4
              + if p.autoFlush && held + r > BlockSize(p.blockSizeID) then BlockCost(held + r - BlockSize(p.blockSizeID)) else 0
  {
    hide BlockSize, BlockCost, FrameEnd, WholeBlocks, Leftover, CompressBound;
    q, r := BoundParts(n, p);
    HeldBlocks(held, n, BlockSize(p.blockSizeID), q, r);
  }

  lemma BoundParts(n: nat, p: Prefs) returns (q: nat, r: nat)
    requires GoodPrefs(p)
    ensures n == q * BlockSize(p.blockSizeID) + r && r == n % BlockSize(p.blockSizeID)
    ensures CompressBound(n, p)
         == 4 * q + 4 + (n - r) + (if p.autoFlush then r else BlockSize(p.blockSizeID)) + FrameEnd(p)
  {
    hide BlockSize, FrameEnd;
    var max := BlockSize(p.blockSizeID);
    q, r := Divided(n, max);
    SameProduct(max, q + 1 - 1, q);
  }

  lemma Divided(n: nat, max: nat) returns (q: nat, r: nat)
    requires 0 < max
    ensures q == n / max && r == n % max && n == q * max + r && r < max
  {
    q, r := n / max, n % max;
  }

  lemma SameProduct(a: nat, b: nat, c: nat)
    requires b == c
    ensures a * b == c * a
  {
  }

  /** What was held back fits in with what is left over, or makes one more block. */
  lemma HeldBlocks(held: nat, n: nat, max: nat, q: nat, r: nat)
    requires held < max && r < max && n == q * max + r
    ensures Leftover(held + n, max) == if held + r < max then held + r else held + r - max
    ensures WholeBlocks(held + n, max) == if held + r < max then (n - r) + 4 * q else (n - r + max) + 4 * q + 4
  {
    if held + r < max {
      DivUnique(held + n, max, q, held + r);
    } else {
      assert (q + 1) * max == q * max + max;
      DivUnique(held + n, max, q + 1, held + r - max);
    }
  }

  /** What the block of the bytes held back can take. */
  function HeldCost(held: nat): nat {
    if held == 0 then 0 else BlockCost(held)
  }

  /** How far a frame has come: the blocks written, how often the compressor has been called,
      and the bytes held back. */
  datatype Progress = Progress(blocks: Blocks, calls: nat, held: seq<byte>)

  /** The next block, as the compressor makes it. */
  function Emitted(compress: Compressor, b: Blocks, calls: nat, s: seq<byte>): Blocks {
    Then(b, s, compress(calls, s))
  }

  /** As many full blocks as there are. */
  function Filled(compress: Compressor, b: Blocks, calls: nat, s: seq<byte>, max: nat): Progress
    requires 0 < max
    decreases |s|
  {
    if |s| < max then Progress(b, calls, s)
    else Filled(compress, Emitted(compress, b, calls, s[..max]), calls + 1, s[max..], max)
  }

  /** What is held back becomes a block. */
  function Flushed(compress: Compressor, q: Progress): Progress {
    if q.held == [] then q else Progress(Emitted(compress, q.blocks, q.calls, q.held), q.calls + 1, [])
  }

  /** What an update makes of the source. */
  function Updated(compress: Compressor, autoFlush: bool, q: Progress, src: seq<byte>, max: nat): Progress
    requires 0 < max
  {
    var f := Filled(compress, q.blocks, q.calls, q.held + src, max);
    if autoFlush then Flushed(compress, f) else f
  }

  lemma UpdatedIs(compress: Compressor, autoFlush: bool, q: Progress, src: seq<byte>, max: nat)
    requires 0 < max
    ensures var f := Filled(compress, q.blocks, q.calls, q.held + src, max);
            Updated(compress, autoFlush, q, src, max) == if autoFlush then Flushed(compress, f) else f
  {
    hide Filled, Flushed;
  }

  lemma FlushedIs(compress: Compressor, q: Progress)
    ensures Flushed(compress, q) == if q.held == [] then q else Progress(Emitted(compress, q.blocks, q.calls, q.held), q.calls + 1, [])
  {
  }

  lemma FilledStep(compress: Compressor, b: Blocks, calls: nat, s: seq<byte>, max: nat)
    requires 0 < max
    ensures Filled(compress, b, calls, s, max)
            == if |s| < max then Progress(b, calls, s)
               else Filled(compress, Emitted(compress, b, calls, s[..max]), calls + 1, s[max..], max)
  {
  }

  /** A block that was begun earlier is completed first. */
  lemma FilledFrom(compress: Compressor, b: Blocks, calls: nat, held: seq<byte>, src: seq<byte>, max: nat)
    requires |held| < max
    ensures |held| + |src| < max ==> Filled(compress, b, calls, held + src, max) == Progress(b, calls, held + src)
    ensures max <= |held| + |src| ==>
              var k := max - |held|;
              Filled(compress, b, calls, held + src, max) == Filled(compress, Emitted(compress, b, calls, held + src[..k]), calls + 1, src[k..], max)
  {
    hide Filled, Emitted;
    FilledStep(compress, b, calls, held + src, max);
    if max <= |held| + |src| {
      var k := max - |held|;
      assert (held + src)[..max] == held + src[..k] && (held + src)[max..] == src[k..];
    }
  }

  /** More source goes to the bytes held back. */
  lemma {:induction false} FilledJoins(compress: Compressor, b: Blocks, calls: nat, s: seq<byte>, t: seq<byte>, max: nat)
    requires 0 < max
    ensures var f := Filled(compress, b, calls, s, max);
            |f.held| < max && Filled(compress, f.blocks, f.calls, f.held + t, max) == Filled(compress, b, calls, s + t, max)
    decreases |s|
  {
    hide Filled, Emitted;
    FilledStep(compress, b, calls, s, max);
    FilledStep(compress, b, calls, s + t, max);
    if |s| >= max {
      assert (s + t)[..max] == s[..max] && (s + t)[max..] == s[max..] + t;
      FilledJoins(compress, Emitted(compress, b, calls, s[..max]), calls + 1, s[max..], t, max);
    }
  }

  /** Without automatic flushing two updates do what one does with all of the source: the
      blocks do not tell how it was cut up. */
  lemma UpdatesJoin(compress: Compressor, q: Progress, a: seq<byte>, b: seq<byte>, max: nat)
    requires 0 < max
    ensures Updated(compress, false, Updated(compress, false, q, a, max), b, max) == Updated(compress, false, q, a + b, max)
  {
    hide Filled;
    FilledJoins(compress, q.blocks, q.calls, q.held + a, b, max);
    ConcatAssoc(q.held, a, b);
  }

  /** The outcome of a call: the number of bytes written, or an error. */
  datatype CResult = Ok(n: nat) | Error

  /** LizardF_cctx_t. The input buffer is the bytes it holds. */
  class CCtx {
    const env: Env
    const compress: Compressor
    /** How often the block compressor has been called. */
    var calls: nat
    var prefs: Prefs
    var cStage: nat
    var maxBlockSize: nat
    var tmpIn: seq<byte>
    var totalInSize: nat
    var xxh: seq<byte>
    /** The blocks emitted since the header, the bytes written since then, header
        included, and the source taken in. */
    ghost var blocks: Blocks
    ghost var emitted: seq<byte>
    ghost var input: seq<byte>

    ghost function Now(): Progress
      reads this`blocks, this`calls, this`tmpIn
    {
      Progress(blocks, calls, tmpIn)
    }

    lemma NowIs()
      ensures Now() == Progress(blocks, calls, tmpIn)
    {
    }

    ghost predicate Valid()
      reads this
    {
      && Sane(env) && BlockCodec(env, compress) && GoodPrefs(prefs)
      && (cStage != 1 ==> tmpIn == [])
      && (cStage == 1 ==>
            && Core() && |tmpIn| < maxBlockSize && (prefs.autoFlush ==> tmpIn == [])
            && input == Content(blocks) + tmpIn && (prefs.checksum ==> xxh == input)
            && (prefs.contentSize > 0 ==> totalInSize == |input|))
    }

    /** What has been written since the header began is a header and whole blocks. */
    ghost predicate Core()
      reads this
    {
      && Sane(env) && BlockCodec(env, compress)
      && GoodPrefs(prefs) && maxBlockSize == BlockSize(prefs.blockSizeID)
      && Coded(env, blocks, maxBlockSize) && Coded(env, blocks, 0x1000_0000)
      && emitted == HeaderBytes(env, prefs) + BodyBytes(env, blocks)
    }

    constructor (env: Env, compress: Compressor)
      requires Sane(env) && BlockCodec(env, compress)
      ensures Valid() && cStage == 0 && this.env == env && this.compress == compress && calls == 0
    {
      this.env, this.compress, calls := env, compress, 0;
      prefs, cStage, maxBlockSize, tmpIn := Prefs(1, false, 0, false), 0, 0, [];
      totalInSize, xxh, blocks, emitted, input := 0, [], NoBlocks, [], [];
    }

    /** memcpy into the destination. */
    static method Write(dst: array<byte>, dp: nat, bytes: seq<byte>)
      requires dp + |bytes| <= dst.Length
      modifies dst
      ensures dst[dp..dp + |bytes|] == bytes
      ensures forall k :: 0 <= k < dst.Length && !(dp <= k < dp + |bytes|) ==> dst[k] == old(dst[k])
    {
      forall k | dp <= k < dp + |bytes| {
        dst[k] := bytes[k - dp];
      }
    }

    /** LizardF_compressBegin: write the header of a new frame. */
    method Begin(dst: array<byte>, dstStart: nat, dstMaxSize: nat, p: Prefs) returns (r: CResult)
      requires Valid() && p.blockSizeID <= 7 && p.contentSize < TWO64
      requires dstStart + dstMaxSize <= dst.Length
      modifies this, dst
      ensures r.Error? <==> dstMaxSize < MAX_FH_SIZE || old(cStage) != 0
      ensures r.Error? ==> unchanged(this) && unchanged(dst)
      ensures r.Ok? ==>
                && Valid() && cStage == 1 && r.n <= MAX_FH_SIZE && r.n == (if p.contentSize > 0 then MAX_FH_SIZE else MIN_FH_SIZE)
                && prefs == WithDefault(p)
                && input == [] && emitted == dst[dstStart..dstStart + r.n] && Now() == Progress(NoBlocks, old(calls), [])
                && (p.contentSize > 0 ==> totalInSize == 0)
      ensures r.Ok? ==> emitted[..4] == [0x06, 0x22, 0x4D, 0x18] && Sealed(env, emitted)
      ensures r.Ok? ==> forall k :: 0 <= k < dst.Length && !(dstStart <= k < dstStart + r.n) ==> dst[k] == old(dst[k])
    {
      hide HeaderBytes, BlockSize, Descriptor, WriteLE32, WriteLE64, BlockCodec, Sane, GoodPrefs, Sealed, Valid;
      DefaultPrefs(p);
      Known();
      if dstMaxSize < MAX_FH_SIZE || cStage != 0 {
        return Error;
      }
      prefs := WithDefault(p);
      maxBlockSize := BlockSize(prefs.blockSizeID);
      tmpIn, xxh, blocks, input := [], [], NoBlocks, [];
      var h := HeaderBytes(env, prefs);
      Write(dst, dstStart, h);
      if prefs.contentSize > 0 {
        totalInSize := 0;
      }
      emitted := h;
      HeaderSealed(env, prefs);
      cStage := 1;
      Fresh();
      r := Ok(|h|);
    }

    /** Behind the header nothing has been taken in. */
    lemma Fresh()
      requires Sane(env) && BlockCodec(env, compress) && GoodPrefs(prefs) && cStage == 1
      requires maxBlockSize == BlockSize(prefs.blockSizeID) && tmpIn == xxh == input == [] && blocks == NoBlocks
      requires emitted == HeaderBytes(env, prefs) && (prefs.contentSize > 0 ==> totalInSize == 0)
      ensures Valid()
    {
      hide HeaderBytes, BlockCodec, Sane;
      assert emitted + [] == emitted;
    }

    /** LizardF_compressBlock, writing at `dp`. */
    method CompressBlock(dst: array<byte>, dp: nat, s: seq<byte>) returns (n: nat, ghost c: seq<byte>)
      requires Sane(env) && BlockCodec(env, compress) && s != [] && |s| < UNCOMPRESSED_FLAG
      requires dp + BlockCost(|s|) <= dst.Length
      modifies this`calls, dst
      ensures c == compress(old(calls), s) && calls == old(calls) + 1
      ensures GoodBlock(env, s, c) && |c| < UNCOMPRESSED_FLAG
      ensures n <= BlockCost(|s|) && dst[dp..dp + n] == BlockBytes(s, c)
      ensures Stores(compress) || |s| == 1 ==> n == BlockCost(|s|)
      ensures forall k :: 0 <= k < dst.Length && !(dp <= k < dp + n) ==> dst[k] == old(dst[k])
    {
      hide WriteLE32, BlockCodec, GoodBlock, Stores;
      CodecOn(env, compress, calls, s);
      var code := compress(calls, s);
      c := code;
      calls := calls + 1;
      BlockBytesCost(env, s, c);
      var cSize := |code|;
      ghost var head, body := WriteLE32(|code|), code;
      if cSize == 0 {
        cSize := |s|;
        head, body := WriteLE32(cSize + UNCOMPRESSED_FLAG), s;
        Write(dst, dp, WriteLE32(cSize + UNCOMPRESSED_FLAG));
        Write(dst, dp + 4, s);
      } else {
        Write(dst, dp, WriteLE32(cSize));
        Write(dst, dp + 4, code);
      }
      n := cSize + 4;
      assert dst[dp..dp + 4] == head && dst[dp + 4..dp + n] == body;
      SliceConcat(dst[..], dp, dp + 4, dp + n);
      assert BlockBytes(s, c) == head + body;
    }

    /** Compress a block and account for it. */
    method EmitBlock(dst: array<byte>, dp: nat, s: seq<byte>) returns (n: nat)
      requires Core() && 1 <= |s| <= maxBlockSize && dp + BlockCost(|s|) <= dst.Length
      modifies this`calls, this`blocks, this`emitted, dst
      ensures Core() && Content(blocks) == old(Content(blocks)) + s
      ensures blocks == Emitted(compress, old(blocks), old(calls), s) && calls == old(calls) + 1
      ensures Stores(compress) || |s| == 1 ==> n == BlockCost(|s|)
      ensures n <= BlockCost(|s|) && emitted == old(emitted) + dst[dp..dp + n]
      ensures forall k :: 0 <= k < dst.Length && !(dp <= k < dp + n) ==> dst[k] == old(dst[k])
    {
      hide HeaderBytes, BlockBytes, BlockSize, BlockCodec, GoodBlock, Sane;
      MaxBlockSize();
      ghost var c;
      n, c := CompressBlock(dst, dp, s);
      blocks := Then(blocks, s, c);
      emitted := emitted + dst[dp..dp + n];
      ConcatAssoc(HeaderBytes(env, prefs), BodyBytes(env, old(blocks)), BlockBytes(s, c));
    }

    lemma MaxBlockSize()
      requires Core()
      ensures GoodPrefs(prefs) && maxBlockSize == BlockSize(prefs.blockSizeID)
      ensures 0x2_0000 <= maxBlockSize <= 0x1000_0000
    {
    }

    /** Complete the block begun in the input buffer, or add to it. */
    method CompleteTmp(src: seq<byte>, dst: array<byte>, dp: nat) returns (sp: nat, n: nat)
      requires Core() && |tmpIn| < maxBlockSize
      requires dp + WholeBlocks(|tmpIn| + |src|, maxBlockSize) <= dst.Length
      modifies this`calls, this`blocks, this`emitted, this`tmpIn, dst
      ensures Core() && sp <= |src| && Content(blocks) + tmpIn == old(Content(blocks) + tmpIn) + src[..sp]
      ensures Filled(compress, blocks, calls, tmpIn + src[sp..], maxBlockSize)
           == Filled(compress, old(blocks), old(calls), old(tmpIn) + src, maxBlockSize)
      ensures n + WholeBlocks(|src| - sp, maxBlockSize) <= WholeBlocks(old(|tmpIn|) + |src|, maxBlockSize)
      ensures Stores(compress) ==>
                n + (if sp < |src| then WholeBlocks(|src| - sp, maxBlockSize) else 0) == WholeBlocks(old(|tmpIn|) + |src|, maxBlockSize)
      ensures |tmpIn| < maxBlockSize && (old(tmpIn) == [] ==> tmpIn == [] && sp == 0)
      ensures sp < |src| ==>
                tmpIn == [] && Leftover(|src| - sp, maxBlockSize) == Leftover(old(|tmpIn|) + |src|, maxBlockSize)
      ensures emitted == old(emitted) + dst[dp..dp + n]
      ensures forall k :: 0 <= k < dst.Length && !(dp <= k < dp + n) ==> dst[k] == old(dst[k])
    {
      hide HeaderBytes, BodyBytes, BlockSize, BlockCodec, Sane, Coded, WholeBlocks, Leftover, BlockCost, Filled, Emitted;
      MaxBlockSize();
      ghost var c, t := Content(blocks), tmpIn;
      sp, n := 0, 0;
      NoBlock(0, maxBlockSize);
      FilledFrom(compress, blocks, calls, tmpIn, src, maxBlockSize);
      assert dst[dp..dp] == [] && c + t + src[..0] == c + t && src[0..] == src;
      if |tmpIn| > 0 {
        var sizeToCopy := maxBlockSize - |tmpIn|;
        if sizeToCopy > |src| {
          tmpIn := tmpIn + src;
          sp := |src|;
          assert src[..|src|] == src && tmpIn + src[|src|..] == tmpIn;
          ConcatAssoc(c, t, src);
          NoBlock(|t| + |src|, maxBlockSize);
        } else {
          BlockStep(|t| + |src|, maxBlockSize);
          tmpIn := tmpIn + src[..sizeToCopy];
          FullCost(maxBlockSize);
          n := EmitBlock(dst, dp, tmpIn);
          ConcatAssoc(c, t, src[..sizeToCopy]);
          sp, tmpIn := sizeToCopy, [];
          assert tmpIn + src[sp..] == src[sp..];
        }
      }
    }

    static lemma FullCost(max: nat)
      requires max > 1
      ensures BlockCost(max) == 4 + max
    {
    }

    /** A full block of the source at `sp`. */
    method FullBlock(src: seq<byte>, sp: nat, dst: array<byte>, dp: nat) returns (m: nat)
      requires Core() && sp + maxBlockSize <= |src| && dp + WholeBlocks(|src| - sp, maxBlockSize) <= dst.Length
      modifies this`calls, this`blocks, this`emitted, dst
      ensures Core() && 0 < maxBlockSize && Leftover(|src| - sp - maxBlockSize, maxBlockSize) == Leftover(|src| - sp, maxBlockSize)
      ensures m + WholeBlocks(|src| - sp - maxBlockSize, maxBlockSize) <= WholeBlocks(|src| - sp, maxBlockSize)
      ensures Stores(compress) ==> m + WholeBlocks(|src| - sp - maxBlockSize, maxBlockSize) == WholeBlocks(|src| - sp, maxBlockSize)
      ensures Filled(compress, blocks, calls, src[sp + maxBlockSize..], maxBlockSize)
           == Filled(compress, old(blocks), old(calls), src[sp..], maxBlockSize)
      ensures Content(blocks) == old(Content(blocks)) + src[sp..sp + maxBlockSize]
      ensures emitted == old(emitted) + dst[dp..dp + m]
      ensures forall k :: 0 <= k < dst.Length && !(dp <= k < dp + m) ==> dst[k] == old(dst[k])
    {
      hide *;
      MaxBlockSize();
      BlockStep(|src| - sp, maxBlockSize);
      FullCost(maxBlockSize);
      FilledStep(compress, blocks, calls, src[sp..], maxBlockSize);
      assert src[sp..][..maxBlockSize] == src[sp..sp + maxBlockSize] && src[sp..][maxBlockSize..] == src[sp + maxBlockSize..];
      m := EmitBlock(dst, dp, src[sp..sp + maxBlockSize]);
    }

    /** The full blocks of the source from `start` on. */
    method FullBlocks(src: seq<byte>, start: nat, dst: array<byte>, dp: nat) returns (sp: nat, n: nat)
      requires Core() && start <= |src| && dp + WholeBlocks(|src| - start, maxBlockSize) <= dst.Length
      modifies this`calls, this`blocks, this`emitted, dst
      ensures Core() && start <= sp <= |src| && |src| - sp == Leftover(|src| - start, maxBlockSize)
      ensures Progress(blocks, calls, src[sp..]) == Filled(compress, old(blocks), old(calls), src[start..], maxBlockSize)
      ensures n <= WholeBlocks(|src| - start, maxBlockSize)
      ensures Stores(compress) ==> n == WholeBlocks(|src| - start, maxBlockSize)
      ensures Content(blocks) == old(Content(blocks)) + src[start..sp]
      ensures emitted == old(emitted) + dst[dp..dp + n]
      ensures forall k :: 0 <= k < dst.Length && !(dp <= k < dp + n) ==> dst[k] == old(dst[k])
    {
      hide *;
      MaxBlockSize();
      sp, n := start, 0;
      ghost var max, room, c := maxBlockSize, WholeBlocks(|src| - start, maxBlockSize), Content(blocks);
      ghost var all := Filled(compress, blocks, calls, src[start..], max);
      assert src[start..start] == [] && dst[dp..dp] == [];
      while |src| - sp >= maxBlockSize
        invariant Core() && start <= sp <= |src| && maxBlockSize == max
        invariant Leftover(|src| - sp, max) == Leftover(|src| - start, max)
        invariant n + WholeBlocks(|src| - sp, max) <= room
        invariant Stores(compress) ==> n + WholeBlocks(|src| - sp, max) == room
        invariant Content(blocks) == c + src[start..sp]
        invariant all == Filled(compress, blocks, calls, src[sp..], max)
        invariant emitted == old(emitted) + dst[dp..dp + n]
        invariant forall k :: 0 <= k < dst.Length && !(dp <= k < dp + n) ==> dst[k] == old(dst[k])
      {
        ghost var d, w, c1 := dst[..], emitted, Content(blocks);
        var m := FullBlock(src, sp, dst, dp + n);
        WrittenTwice(d, dst[..], old(emitted), w, emitted, dp, n, m);
        TakenTwice(src, c, c1, Content(blocks), start, sp, sp + max);
        sp, n := sp + maxBlockSize, n + m;
      }
      NoBlock(|src| - sp, max);
      FilledStep(compress, blocks, calls, src[sp..], max);
    }

    /** The blocks that an update makes of what was held back and the source; `sp` bytes
        of the source are used up. */
    method UpdateBlocks(src: seq<byte>, dst: array<byte>, dp: nat) returns (sp: nat, n: nat)
      requires Core() && |tmpIn| < maxBlockSize && dp + WholeBlocks(|tmpIn| + |src|, maxBlockSize) <= dst.Length
      modifies this`calls, this`blocks, this`emitted, this`tmpIn, dst
      ensures Core() && sp <= |src| && n <= WholeBlocks(old(|tmpIn|) + |src|, maxBlockSize)
      ensures Progress(blocks, calls, tmpIn + src[sp..]) == Filled(compress, old(blocks), old(calls), old(tmpIn) + src, maxBlockSize)
      ensures Stores(compress) ==> n == WholeBlocks(old(|tmpIn|) + |src|, maxBlockSize)
      ensures Content(blocks) + tmpIn == old(Content(blocks) + tmpIn) + src[..sp]
      ensures |tmpIn| < maxBlockSize && (old(tmpIn) == [] ==> tmpIn == [])
      ensures sp < |src| ==> tmpIn == []
      ensures old(tmpIn) == [] ==> |src| - sp == Leftover(|src|, maxBlockSize)
      ensures sp < |src| ==> |src| - sp == Leftover(old(|tmpIn|) + |src|, maxBlockSize) < maxBlockSize
      ensures emitted == old(emitted) + dst[dp..dp + n]
      ensures forall k :: 0 <= k < dst.Length && !(dp <= k < dp + n) ==> dst[k] == old(dst[k])
    {
      hide *;
      MaxBlockSize();
      ghost var c := Content(blocks) + tmpIn;
      var sp0, n0 := CompleteTmp(src, dst, dp);
      ghost var d, x, w, b, k := Content(blocks), dst[..], emitted, blocks, calls;
      var sp1, n1 := FullBlocks(src, sp0, dst, dp + n0);
      sp, n := sp1, n0 + n1;
      WrittenTwice(x, dst[..], old(emitted), w, emitted, dp, n0, n1);
      HeldIsLast(c, d, tmpIn, Content(blocks), src, sp0, sp);
      HeldStays(compress, b, k, tmpIn, src, sp0, sp, maxBlockSize, Progress(blocks, calls, src[sp..]));
    }

    /** The rest of the source, in a last block or held back. */
    method TakeRest(src: seq<byte>, sp: nat, dst: array<byte>, dp: nat) returns (n: nat)
      requires Core() && sp <= |src| && |src| - sp < maxBlockSize && (sp < |src| ==> tmpIn == [])
      requires prefs.autoFlush ==> tmpIn == []
      requires dp <= dst.Length && (prefs.autoFlush && sp < |src| ==> dp + BlockCost(|src| - sp) <= dst.Length)
      modifies this`calls, this`blocks, this`emitted, this`tmpIn, dst
      ensures var f := Progress(old(blocks), old(calls), old(tmpIn) + src[sp..]);
              Now() == if prefs.autoFlush then Flushed(compress, f) else f
      ensures Core() && n <= if prefs.autoFlush && sp < |src| then BlockCost(|src| - sp) else 0
      ensures Stores(compress) || |src| - sp == 1 ==> n == if prefs.autoFlush && sp < |src| then BlockCost(|src| - sp) else 0
      ensures Content(blocks) + tmpIn == old(Content(blocks) + tmpIn) + src[sp..]
      ensures |tmpIn| < maxBlockSize || tmpIn == old(tmpIn)
      ensures prefs.autoFlush ==> tmpIn == old(tmpIn)
      ensures emitted == old(emitted) + dst[dp..dp + n]
      ensures forall k :: 0 <= k < dst.Length && !(dp <= k < dp + n) ==> dst[k] == old(dst[k])
    {
      hide *;
      MaxBlockSize();
      NowIs();
      n := 0;
      ghost var c, f := Content(blocks), Progress(blocks, calls, tmpIn + src[sp..]);
      FlushedIs(compress, f);
      assert c + [] == c && dst[dp..dp] == [] && tmpIn + [] == tmpIn;
      if sp < |src| {
        assert tmpIn + src[sp..] == src[sp..];
        if prefs.autoFlush {
          n := EmitBlock(dst, dp, src[sp..]);
          NowIs();
          assert c + src[sp..] + [] == c + src[sp..];
        } else {
          HoldBack(src[sp..]);
        }
      } else {
        assert src[sp..] == [] && c + tmpIn + [] == c + tmpIn;
      }
    }

    method HoldBack(s: seq<byte>)
      requires Core() && tmpIn == []
      modifies this`tmpIn
      ensures Core() && tmpIn == s && Now() == Progress(blocks, calls, s)
      ensures Content(blocks) + tmpIn == old(Content(blocks) + tmpIn) + s
    {
      hide Content, BodyBytes, HeaderBytes, BlockCodec, Sane, Coded, BlockSize, GoodPrefs;
      assert Content(blocks) + [] == Content(blocks);
      tmpIn := s;
    }

    /** Take in the whole source, in blocks as far as it goes. */
    method TakeIn(src: seq<byte>, dst: array<byte>, dp: nat) returns (n: nat)
      requires Core() && |tmpIn| < maxBlockSize && (prefs.autoFlush ==> tmpIn == [])
      requires dp + WorstUpdate(|tmpIn|, |src|, prefs) <= dst.Length
      modifies this`calls, this`blocks, this`emitted, this`tmpIn, dst
      ensures Core() && |tmpIn| < maxBlockSize && (prefs.autoFlush ==> tmpIn == [])
      ensures Content(blocks) + tmpIn == old(Content(blocks) + tmpIn) + src
      ensures Now() == Updated(compress, prefs.autoFlush, old(Now()), src, maxBlockSize)
      ensures prefs.autoFlush && (Stores(compress) || |src| == 1) ==> n == WorstUpdate(0, |src|, prefs)
      ensures n <= WorstUpdate(old(|tmpIn|), |src|, prefs) && emitted == old(emitted) + dst[dp..dp + n]
      ensures forall k :: 0 <= k < dst.Length && !(dp <= k < dp + n) ==> dst[k] == old(dst[k])
    {
      hide *;
      WorstUpdateParts(|tmpIn|, |src|);
      WorstUpdateParts(0, |src|);
      MaxBlockSize();
      if |src| == 1 {
        NoBlock(1, maxBlockSize);
      }
      NowIs();
      UpdatedIs(compress, prefs.autoFlush, Now(), src, maxBlockSize);
      ghost var c := Content(blocks) + tmpIn;
      var sp, n0 := UpdateBlocks(src, dst, dp);
      ghost var x, w, c1 := dst[..], emitted, Content(blocks) + tmpIn;
      var m := TakeRest(src, sp, dst, dp + n0);
      n := n0 + m;
      WrittenTwice(x, dst[..], old(emitted), w, emitted, dp, n0, m);
      WholeTaken(src, c, c1, Content(blocks) + tmpIn, sp);
    }

    static lemma WholeTaken(s: seq<byte>, c0: seq<byte>, c1: seq<byte>, c2: seq<byte>, mid: nat)
      requires mid <= |s| && c1 == c0 + s[..mid] && c2 == c1 + s[mid..]
      ensures c2 == c0 + s
    {
      ConcatAssoc(c0, s[..mid], s[mid..]);
      assert s[..mid] + s[mid..] == s;
    }

    lemma WorstUpdateParts(held: nat, n: nat)
      requires Core()
      ensures WorstUpdate(held, n, prefs) == WholeBlocks(held + n, maxBlockSize)
        + if prefs.autoFlush && Leftover(held + n, maxBlockSize) > 0 then BlockCost(Leftover(held + n, maxBlockSize)) else 0
    {
    }

    /** LizardF_compressUpdate: what it writes is blocks; what they hold and what is
        held back is the input so far. */
    method Update(dst: array<byte>, dstStart: nat, dstMaxSize: nat, src: seq<byte>) returns (r: CResult)
      requires Valid()
      requires dstStart + dstMaxSize + (if Tight(|src|, prefs) then 1 else 0) <= dst.Length
      modifies this`calls, this`blocks, this`emitted, this`tmpIn, this`xxh, this`totalInSize, this`input, dst
      ensures r.Error? <==> old(cStage) != 1 || dstMaxSize < CompressBound(|src|, prefs)
      ensures r.Error? ==> unchanged(this) && unchanged(dst)
      ensures r.Ok? ==> dstStart + r.n <= dst.Length && r.n <= WorstUpdate(old(|tmpIn|), |src|, prefs)
      ensures r.Ok? && !Tight(|src|, prefs) ==> r.n <= CompressBound(|src|, prefs)
      ensures r.Ok? && prefs.autoFlush && (Stores(compress) || |src| == 1) ==> r.n == WorstUpdate(0, |src|, prefs)
      ensures r.Ok? && Tight(|src|, prefs) && (Stores(compress) || |src| == 1) ==> r.n == CompressBound(|src|, prefs) + 1
      ensures r.Ok? ==>
                && Valid() && input == old(input) + src && totalInSize == old(totalInSize) + |src|
                && 0 < maxBlockSize == BlockSize(prefs.blockSizeID)
                && Now() == Updated(compress, prefs.autoFlush, old(Now()), src, maxBlockSize)
                && emitted == old(emitted) + dst[dstStart..dstStart + r.n]
                && forall k :: 0 <= k < dst.Length && !(dstStart <= k < dstStart + r.n) ==> dst[k] == old(dst[k])
    {
      hide HeaderBytes, BodyBytes, BlockSize, BlockCodec, Sane, Coded, Tight, CompressBound, WorstUpdate, Content, GoodPrefs;
      if cStage != 1 || dstMaxSize < CompressBound(|src|, prefs) {
        return Error;
      }
      WorstCase(|tmpIn|, |src|, prefs);
      var n := TakeIn(src, dst, dstStart);
      if prefs.checksum {
        xxh := xxh + src;
      }
      totalInSize := totalInSize + |src|;
      input := input + src;
      r := Ok(n);
    }

    /** LizardF_flush: whatever is held back becomes a block. */
    method Flush(dst: array<byte>, dstStart: nat, dstMaxSize: nat) returns (r: CResult)
      requires Valid() && dstStart <= dst.Length
      requires |tmpIn| > 0 && dstMaxSize >= |tmpIn| + 8 ==> dstStart + BlockCost(|tmpIn|) <= dst.Length
      modifies this`calls, this`blocks, this`emitted, this`tmpIn, dst
      ensures r.Error? <==> |old(tmpIn)| > 0 && dstMaxSize < |old(tmpIn)| + 8
      ensures r.Error? ==> unchanged(this) && unchanged(dst)
      ensures r.Ok? ==> dstStart + r.n <= dst.Length && r.n <= HeldCost(|old(tmpIn)|)
      ensures r.Ok? ==>
                && Valid() && tmpIn == [] && Now() == Flushed(compress, old(Now()))
                && emitted == old(emitted) + dst[dstStart..dstStart + r.n]
                && forall k :: 0 <= k < dst.Length && !(dstStart <= k < dstStart + r.n) ==> dst[k] == old(dst[k])
    {
      hide HeaderBytes, BodyBytes, BlockSize, BlockCodec, Sane, Coded, BlockCost, GoodPrefs;
      if |tmpIn| == 0 {
        assert dst[dstStart..dstStart] == [];
        return Ok(0);
      }
      if cStage != 1 || dstMaxSize < |tmpIn| + 8 {
        return Error;
      }
      ghost var c := Content(blocks) + tmpIn;
      var n := EmitBlock(dst, dstStart, tmpIn);
      tmpIn := [];
      assert c + [] == c;
      r := Ok(n);
    }

    /** LizardF_compressEnd: finish the frame. The room for the end mark and the checksum
        is the caller's business. What was written since LizardF_compressBegin is a frame
        that decodes to the input, however that came. */
    method End(dst: array<byte>, dstStart: nat, dstMaxSize: nat) returns (r: CResult)
      requires Valid() && dstStart + HeldCost(|tmpIn|) + FrameEnd(prefs) <= dst.Length
      modifies this, dst
      ensures r.Error? <==>
                || (|old(tmpIn)| > 0 && dstMaxSize < |old(tmpIn)| + 8)
                || (prefs.contentSize != 0 && prefs.contentSize != totalInSize)
      ensures prefs == old(prefs) && totalInSize == old(totalInSize) && input == old(input)
      ensures |old(tmpIn)| > 0 && dstMaxSize < |old(tmpIn)| + 8 ==> unchanged(this) && unchanged(dst)
      ensures Valid() && (r.Ok? ==> cStage == 0 && r.n <= HeldCost(|old(tmpIn)|) + FrameEnd(prefs))
      ensures r.Ok? ==> r.n >= FrameEnd(prefs)
      ensures r.Ok? ==> dstStart + r.n <= dst.Length && emitted == old(emitted) + dst[dstStart..dstStart + r.n]
      ensures r.Ok? ==> Now() == Flushed(compress, old(Now()))
      ensures r.Ok? && old(cStage) == 1 ==> Coded(env, blocks, 0x1000_0000) && emitted == FrameBytes(env, prefs, blocks)
      ensures r.Ok? && old(cStage) == 1 ==> Moves(env, START, [], emitted, input, START, [])
      ensures r.Ok? ==> forall k :: 0 <= k < dst.Length && !(dstStart <= k < dstStart + r.n) ==> dst[k] == old(dst[k])
    {
      hide *;
      Known();
      NothingHeld();
      r := Flush(dst, dstStart, dstMaxSize);
      if r.Error? {
        return;
      }
      var n := r.n;
      ghost var x, w := dst[..], emitted;
      var m := Finish(dst, dstStart + n);
      WrittenTwice(x, dst[..], old(emitted), w, emitted, dstStart, n, m);
      if prefs.contentSize != 0 && prefs.contentSize != totalInSize {
        return Error;
      }
      r := Ok(n + m);
    }

    /** With nothing held back: the end of the frame, and a context that can be used again. */
    method Finish(dst: array<byte>, dp: nat) returns (n: nat)
      requires Valid() && tmpIn == [] && dp + FrameEnd(prefs) <= dst.Length
      modifies this`emitted, this`cStage, dst
      ensures n == FrameEnd(prefs) && emitted == old(emitted) + dst[dp..dp + n] && Valid() && cStage == 0
      ensures old(cStage) == 1 && (prefs.contentSize == 0 || prefs.contentSize == totalInSize) ==>
                && Coded(env, blocks, 0x1000_0000) && emitted == FrameBytes(env, prefs, blocks)
                && Moves(env, START, [], emitted, input, START, [])
      ensures forall k :: 0 <= k < dst.Length && !(dp <= k < dp + n) ==> dst[k] == old(dst[k])
    {
      hide *;
      Known();
      if cStage == 1 && (prefs.contentSize == 0 || prefs.contentSize == totalInSize) {
        FinishedFrame();
      }
      n := PutEnd(dst, dp);
      cStage := 0;
      Idle();
    }

    /** The end mark, and the checksum if the frame has one. */
    method PutEnd(dst: array<byte>, dp: nat) returns (n: nat)
      requires Sane(env) && dp + FrameEnd(prefs) <= dst.Length
      modifies this`emitted, dst
      ensures n == FrameEnd(prefs) && dst[dp..dp + n] == EndBytes(env, prefs.checksum, xxh)
      ensures emitted == old(emitted) + dst[dp..dp + n]
      ensures forall k :: 0 <= k < dst.Length && !(dp <= k < dp + n) ==> dst[k] == old(dst[k])
    {
      hide WriteLE32;
      n := 4;
      Write(dst, dp, WriteLE32(0));
      if prefs.checksum {
        Write(dst, dp + 4, WriteLE32(env.xxh(xxh)));
        n := 8;
        assert dst[dp..dp + n] == dst[dp..dp + 4] + dst[dp + 4..dp + n];
      }
      emitted := emitted + dst[dp..dp + n];
    }

    lemma NothingHeld()
      requires Valid()
      ensures HeldCost(0) == 0
      ensures cStage == 1 && prefs.autoFlush ==> tmpIn == []
      ensures |tmpIn| > 0 ==> HeldCost(|tmpIn|) == BlockCost(|tmpIn|)
    {
    }

    lemma Known()
      requires Valid()
      ensures Sane(env) && BlockCodec(env, compress) && GoodPrefs(prefs)
    {
    }

    lemma Idle()
      requires Sane(env) && BlockCodec(env, compress) && GoodPrefs(prefs) && cStage == 0 && tmpIn == []
      ensures Valid()
    {
    }

    /** With nothing held back and the announced size reached, only the end is missing. */
    lemma FinishedFrame()
      requires Valid() && cStage == 1 && tmpIn == []
      requires prefs.contentSize == 0 || prefs.contentSize == totalInSize
      ensures Coded(env, blocks, 0x1000_0000)
      ensures emitted + EndBytes(env, prefs.checksum, xxh) == FrameBytes(env, prefs, blocks)
      ensures Moves(env, START, [], emitted + EndBytes(env, prefs.checksum, xxh), input, START, [])
    {
      hide HeaderBytes, BodyBytes, BlockSize, BlockCodec, Coded, Content, Moves;
      assert Content(blocks) + [] == Content(blocks);
      FrameDecodes(env, prefs, blocks);
      EndBytesAgree(env, prefs.checksum, xxh, input);
    }
  }

  lemma EndBytesAgree(env: Env, checksum: bool, s: seq<byte>, t: seq<byte>)
    requires Sane(env) && (checksum ==> s == t)
    ensures EndBytes(env, checksum, s) == EndBytes(env, checksum, t)
  {
  }

  /** What is held back comes after the blocks. */
  lemma HeldIsLast(c: seq<byte>, d: seq<byte>, held: seq<byte>, e: seq<byte>, src: seq<byte>, mid: nat, sp: nat)
    requires mid <= sp <= |src| && d + held == c + src[..mid] && e == d + src[mid..sp]
    requires mid < |src| ==> held == []
    ensures e + held == c + src[..sp]
  {
    if mid < |src| {
      assert d + held == d && e + held == e;
      assert src[..mid] + src[mid..sp] == src[..sp];
      ConcatAssoc(c, src[..mid], src[mid..sp]);
    } else {
      assert src[mid..sp] == [] && d + [] == d;
    }
  }

  lemma HeldStays(compress: Compressor, b: Blocks, calls: nat, held: seq<byte>, src: seq<byte>, mid: nat, sp: nat, max: nat, q: Progress)
    requires |held| < max && mid <= sp <= |src| && (mid < |src| ==> held == [])
    requires q.held == src[sp..] && q == Filled(compress, b, calls, src[mid..], max)
    ensures q.(held := held + q.held) == Filled(compress, b, calls, held + src[mid..], max)
  {
    hide Filled;
    if mid < |src| {
      assert held + src[mid..] == src[mid..] && held + q.held == q.held;
    } else {
      assert src[mid..] == [] && held + src[mid..] == held && held + q.held == held;
      FilledStep(compress, b, calls, held, max);
      FilledStep(compress, b, calls, src[mid..], max);
    }
  }

  // ----- LizardF_compressFrame -----

  /** The block size identifier to use for `n` bytes: the one asked for, or the smallest
      one whose blocks hold them all. */
  ghost predicate Optimal(requested: nat, n: nat, id: nat)
    requires requested <= 7
  {
    && id <= requested && (id == 0 ==> requested == 0)
    && (id < requested ==> n <= BlockSize(id))
    && forall i :: 1 <= i < id ==> BlockSize(i) < n
  }

  lemma OptimalUnique(requested: nat, n: nat, id: nat, id2: nat)
    requires requested <= 7 && Optimal(requested, n, id)
    requires Optimal(requested, n, id2)
    ensures id == id2 && Optimal(id, n, id)
  {
  }

  /** LizardF_optimalBSID. */
  method OptimalBSID(requested: nat, n: nat) returns (id: nat)
    requires requested <= 7
    ensures Optimal(requested, n, id)
  {
    var proposed: nat := 1;
    while requested > proposed
      invariant 1 <= proposed <= 7 && (requested > 0 ==> proposed <= requested)
      invariant forall i :: 1 <= i < proposed ==> BlockSize(i) < n
    {
      if n <= BlockSize(proposed) {
        return proposed;
      }
      proposed := proposed + 1;
    }
    return requested;
  }

  /** LizardF_compressFrameBound. */
  method FrameBound(n: nat, p: Prefs) returns (bound: nat)
    requires p.blockSizeID <= 7 && p.contentSize < TWO64
    ensures forall id: nat :: Optimal(p.blockSizeID, n, id) ==>
              bound == MAX_FH_SIZE + CompressBound(n, WithDefault(p.(blockSizeID := id, autoFlush := true)))
  {
    var best := OptimalBSID(p.blockSizeID, n);
    forall id: nat | Optimal(p.blockSizeID, n, id)
      ensures id == best
    {
      OptimalUnique(p.blockSizeID, n, id, best);
    }
    bound := MAX_FH_SIZE + CompressBound(n, WithDefault(p.(blockSizeID := best, autoFlush := true)));
  }

  /** The preferences that LizardF_compressFrame ends up with. */
  function FramePrefs(p: Prefs, n: nat, id: nat): Prefs {
    WithDefault(Prefs(id, p.checksum, if p.contentSize != 0 then n else 0, true))
  }

  lemma DefaultPrefs(p: Prefs)
    requires p.blockSizeID <= 7 && p.contentSize < TWO64
    ensures GoodPrefs(WithDefault(p)) && WithDefault(p).autoFlush == p.autoFlush
    ensures WithDefault(p).contentSize == p.contentSize
  {
  }

  lemma FramePrefsOk(p: Prefs, n: nat, id: nat)
    requires p.blockSizeID <= 7 && n < TWO64 && Optimal(p.blockSizeID, n, id)
    ensures id <= 7 && GoodPrefs(FramePrefs(p, n, id)) && Optimal(id, n, id)
    ensures var q := Prefs(id, p.checksum, if p.contentSize != 0 then n else 0, true);
            FramePrefs(p, n, id) == WithDefault(q) && WithDefault(q).autoFlush
            && WithDefault(q).contentSize == q.contentSize
  {
  }

  /** The most that a frame made in one go can take. */
  function WorstFrame(n: nat, p: Prefs): nat
    requires GoodPrefs(p)
  {
    (if p.contentSize > 0 then MAX_FH_SIZE else MIN_FH_SIZE) + WorstUpdate(0, n, p) + FrameEnd(p)
  }

  /** The header gives the content size, and the last block is of one byte. */
  predicate OneByteOver(n: nat, p: Prefs)
    requires GoodPrefs(p)
  {
    p.contentSize > 0 && n % BlockSize(p.blockSizeID) == 1
  }

  /** A frame stays within LizardF_compressFrameBound unless its header gives the content
      size and a block of one byte is left over; then the worst case is five bytes more. */
  lemma WorstFrameExact(n: nat, p: Prefs)
    requires GoodPrefs(p) && p.autoFlush
    ensures WorstFrame(n, p)
         == (if p.contentSize > 0 then MAX_FH_SIZE else MIN_FH_SIZE) + WorstUpdate(0, n, p) + FrameEnd(p)
    ensures var bound := MAX_FH_SIZE + CompressBound(n, p);
            && (WorstFrame(n, p) <= bound <==> !OneByteOver(n, p))
            && (OneByteOver(n, p) ==> WorstFrame(n, p) == bound + 5)
  {
    hide BlockSize;
    var max := BlockSize(p.blockSizeID);
    assert n == max * (n / max) + n % max;
  }

  /** A difference of sizes in the width of size_t. */
  function SizeT(x: int): nat {
    x % TWO64
  }

  lemma WrittenOn(d: seq<byte>, e: seq<byte>, w1: seq<byte>, w2: seq<byte>, n: nat, m: nat)
    requires |d| == |e| && n + m <= |e| && w1 == d[..n] && w2 == w1 + e[n..n + m]
    requires forall k :: 0 <= k < n ==> e[k] == d[k]
    ensures w2 == e[..n + m]
  {
    assert e[..n] == d[..n] && e[..n + m] == e[..n] + e[n..n + m];
  }

  /** The blocks of a frame made in one go, by a context that has called the compressor so
      often before. */
  ghost function BlocksInOne(compress: Compressor, calls: nat, p: Prefs, src: seq<byte>): Blocks
    requires GoodPrefs(p)
  {
    Updated(compress, true, Progress(NoBlocks, calls, []), src, BlockSize(p.blockSizeID)).blocks
  }

  /** The header and all blocks. */
  method HeaderAndBlocks(c: CCtx, dst: array<byte>, dstMaxSize: nat, src: seq<byte>, p: Prefs) returns (n: nat)
    requires c.Valid() && c.cStage == 0
    requires p.blockSizeID <= 7 && p.autoFlush && p.contentSize < TWO64
    requires dstMaxSize >= MAX_FH_SIZE + CompressBound(|src|, WithDefault(p)) && dstMaxSize + 5 <= dst.Length
    modifies c, dst
    ensures c.Valid() && c.cStage == 1 && c.tmpIn == [] && c.prefs == WithDefault(p) && c.input == src
    ensures p.contentSize > 0 ==> c.totalInSize == |src|
    ensures GoodPrefs(WithDefault(p)) && c.blocks == BlocksInOne(c.compress, old(c.calls), WithDefault(p), src)
    ensures n + FrameEnd(WithDefault(p)) <= WorstFrame(|src|, WithDefault(p)) && n <= dst.Length && c.emitted == dst[..n]
    ensures Stores(c.compress) || |src| == 1 ==> n + FrameEnd(WithDefault(p)) == WorstFrame(|src|, WithDefault(p))
  {
    hide *;
    DefaultPrefs(p);
    WorstFrameExact(|src|, WithDefault(p));
    ghost var calls := c.calls;
    var r := c.Begin(dst, 0, dstMaxSize, p);
    c.NothingHeld();
    n := r.n;
    ghost var x, w := dst[..], c.emitted;
    assert [] + src == src;
    r := c.Update(dst, n, dstMaxSize - n, src);
    c.NothingHeld();
    WrittenOn(x, dst[..], w, c.emitted, n, r.n);
    c.NowIs();
    InOneIs(c.compress, calls, WithDefault(p), src);
    n := n + r.n;
  }

  lemma InOneIs(compress: Compressor, calls: nat, p: Prefs, src: seq<byte>)
    requires GoodPrefs(p)
    ensures 0 < BlockSize(p.blockSizeID)
    ensures BlocksInOne(compress, calls, p, src) == Updated(compress, true, Progress(NoBlocks, calls, []), src, BlockSize(p.blockSizeID)).blocks
  {
    hide Updated;
  }

  /** The calls that make up LizardF_compressFrame, on a context of their own. */
  method OneGo(c: CCtx, dst: array<byte>, dstMaxSize: nat, src: seq<byte>, p: Prefs) returns (n: nat, ghost b: Blocks)
    requires c.Valid() && c.cStage == 0
    requires p.blockSizeID <= 7 && p.autoFlush
    requires p.contentSize < TWO64 && (p.contentSize == 0 || p.contentSize == |src|)
    requires dstMaxSize >= MAX_FH_SIZE + CompressBound(|src|, WithDefault(p)) && dstMaxSize + 5 <= dst.Length
    modifies c, dst
    ensures n <= WorstFrame(|src|, WithDefault(p)) && n <= dst.Length
    ensures Stores(c.compress) || |src| == 1 ==> n == WorstFrame(|src|, WithDefault(p))
    ensures GoodPrefs(WithDefault(p)) && b == BlocksInOne(c.compress, old(c.calls), WithDefault(p), src)
    ensures Sane(c.env) && Coded(c.env, b, 0x1000_0000) && dst[..n] == FrameBytes(c.env, WithDefault(p), b)
    ensures Moves(c.env, START, [], dst[..n], src, START, [])
  {
    hide *;
    DefaultPrefs(p);
    WorstFrameExact(|src|, WithDefault(p));
    n := HeaderAndBlocks(c, dst, dstMaxSize, src, p);
    c.NothingHeld();
    c.Known();
    c.NowIs();
    FlushedIs(c.compress, c.Now());
    b := c.blocks;
    ghost var x, w := dst[..], c.emitted;
    var r := c.End(dst, n, SizeT(dstMaxSize - n));
    WrittenOn(x, dst[..], w, c.emitted, n, r.n);
    c.NowIs();
    n := n + r.n;
  }

  /** LizardF_compressFrame: a whole frame in one go. */
  method CompressFrame(env: Env, compress: Compressor, dst: array<byte>, dstMaxSize: nat,
                       src: seq<byte>, p: Prefs) returns (r: CResult, ghost id: nat, ghost b: Blocks)
    requires Sane(env) && BlockCodec(env, compress) && p.blockSizeID <= 7 && |src| < TWO64
    requires dstMaxSize + 5 <= dst.Length
    modifies dst
    ensures Optimal(p.blockSizeID, |src|, id)
    ensures r.Error? <==> dstMaxSize < MAX_FH_SIZE + CompressBound(|src|, FramePrefs(p, |src|, id))
    ensures r.Ok? ==> r.n <= WorstFrame(|src|, FramePrefs(p, |src|, id)) && r.n <= dst.Length
    ensures r.Ok? && !OneByteOver(|src|, FramePrefs(p, |src|, id)) ==>
              r.n <= MAX_FH_SIZE + CompressBound(|src|, FramePrefs(p, |src|, id))
    ensures r.Ok? && OneByteOver(|src|, FramePrefs(p, |src|, id)) && (Stores(compress) || |src| == 1) ==>
              r.n == MAX_FH_SIZE + CompressBound(|src|, FramePrefs(p, |src|, id)) + 5
    ensures r.Ok? ==> GoodPrefs(FramePrefs(p, |src|, id)) && b == BlocksInOne(compress, 0, FramePrefs(p, |src|, id), src)
    ensures r.Ok? ==> Coded(env, b, 0x1000_0000) && dst[..r.n] == FrameBytes(env, FramePrefs(p, |src|, id), b)
    ensures r.Ok? ==> Moves(env, START, [], dst[..r.n], src, START, [])
  {
    hide *;
    b := NoBlocks;
    var best := OptimalBSID(p.blockSizeID, |src|);
    id := best;
    var prefs := Prefs(best, p.checksum, if p.contentSize != 0 then |src| else 0, true);
    ghost var q := FramePrefs(p, |src|, id);
    FramePrefsOk(p, |src|, id);
    OptimalUnique(p.blockSizeID, |src|, id, id);
    var bound := FrameBound(|src|, prefs);
    if dstMaxSize < bound {
      return Error, id, b;
    }
    var c := new CCtx(env, compress);
    var n;
    n, b := OneGo(c, dst, dstMaxSize, src, prefs);
    WorstFrameExact(|src|, q);
    r := Ok(n);
  }

  // ----- One byte is enough -----

  /** Whatever the codec, an update of one byte with automatic flushing and no checksum
      writes one byte more than LizardF_compressBound promises. */
  method OneByteUpdate(env: Env, compress: Compressor, p: Prefs, dst: array<byte>, b: byte) returns (n: nat)
    requires Sane(env) && BlockCodec(env, compress) && GoodPrefs(p) && p.autoFlush && !p.checksum
    requires dst.Length >= MAX_FH_SIZE + CompressBound(1, p) + 1
    modifies dst
    ensures n == CompressBound(1, p) + 1
  {
    hide *;
    TightOne(p);
    var c := new CCtx(env, compress);
    var r := c.Begin(dst, 0, MAX_FH_SIZE, p);
    r := c.Update(dst, r.n, CompressBound(1, p), [b]);
    n := r.n;
  }

  lemma TightOne(p: Prefs)
    requires GoodPrefs(p) && p.autoFlush && !p.checksum
    ensures p.blockSizeID <= 7 && p.contentSize < TWO64 && WithDefault(p) == p && Tight(1, p)
  {
  }

  /** Whatever the codec, a frame of one byte whose header gives the content size takes five
      bytes more than LizardF_compressFrameBound promises. */
  method OneByteFrame(env: Env, compress: Compressor, p: Prefs, dst: array<byte>, b: byte) returns (n: nat, ghost id: nat)
    requires Sane(env) && BlockCodec(env, compress) && p.blockSizeID <= 7 && p.contentSize != 0
    requires forall i: nat :: Optimal(p.blockSizeID, 1, i) ==>
               MAX_FH_SIZE + CompressBound(1, FramePrefs(p, 1, i)) + 5 <= dst.Length
    modifies dst
    ensures Optimal(p.blockSizeID, 1, id) && n == MAX_FH_SIZE + CompressBound(1, FramePrefs(p, 1, id)) + 5
  {
    assert 1 < TWO64;
    hide *;
    var best := OptimalBSID(p.blockSizeID, 1);
    FramePrefsOk(p, 1, best);
    OneByteIsOver(FramePrefs(p, 1, best));
    var r;
    ghost var b1;
    r, id, b1 := CompressFrame(env, compress, dst, MAX_FH_SIZE + CompressBound(1, FramePrefs(p, 1, best)), [b], p);
    OptimalUnique(p.blockSizeID, 1, best, id);
    n := r.n;
  }

  lemma OneByteIsOver(p: Prefs)
    requires GoodPrefs(p)
    ensures p.contentSize > 0 ==> OneByteOver(1, p)
  {
  }
}
