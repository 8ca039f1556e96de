/** The block codec within the frame layer (lizard_frame.c:456-484, 895-901): what the frames
    take for granted of it is what it has been proved to do. */
module LizardFrameCodec {
  import opened Bytes
  import opened LizardCodes
  import opened LizardContainer
  import opened LizardGreedy
  import opened LizardCompress
  import LittleEndian
  import Spec = LizardFrameSpec
  import Encoder = LizardFrameEncoder
  import Runs = LizardFrameRuns

  /** Lizard_decompress_safe as the frame decoder calls it: a block without output is no error. */
  function DecodeBlock(b: seq<byte>, cap: nat): Outcome {
    match DecodeAll(b, cap)
    case Regenerated(bytes) => Done(bytes)
    case Empty => Done([])
    case Refused => Failed
    case Unknown => Overrun
  }

  function Lizard(xxh: seq<byte> -> nat): Spec.Env {
    Spec.Env(DecodeBlock, xxh)
  }

  lemma {:induction false} RunBounded(kind: Codewords, s: Streams, out: seq<byte>, last: nat, lim: Limits)
    ensures var r := Run(kind, s, out, last, lim); r.Regenerated? ==> |r.bytes| <= lim.end
    decreases |s.flags|
  {
    hide TakeTurn;
    if s.flags != [] {
      var t := TakeTurn(kind, s, out, last, lim);
      if t.Turn? {
        RunBounded(kind, t.rest, t.out, t.last, lim);
      }
    }
  }

  lemma {:induction false} BlocksBounded(kind: Codewords, s: seq<byte>, out: seq<byte>, room: int, cap: nat)
    requires |out| <= cap
    ensures var r := DecodeBlocks(kind, s, out, room, cap); r.Regenerated? ==> |r.bytes| <= cap
    decreases |s|
  {
    hide ReadPart, ReadSections, Run;
    if s != [] && s[0] == FLAG_UNCOMPRESSED {
      var r := ReadPart(false, s[1..]);
      if r.PartRead? && |out| + |r.x| <= cap {
        BlocksBounded(kind, r.rest, out + r.x, room, cap);
      }
    } else if s != [] {
      var b := ReadSections(s[0], s[1..]);
      if b.BlockRead? {
        var lim := Limits(|out| + room, cap);
        RunBounded(kind, b.streams, out, 0, lim);
        var d := Decode(kind, b.streams, out, lim);
        if d.Regenerated? {
          BlocksBounded(kind, b.rest, d.bytes, room - (|d.bytes| - |out|), cap);
        }
      }
    }
  }

  /** `c` is nothing, or what Lizard_compress makes of `s` with room for one byte less. */
  ghost predicate Made(kind: Codewords, s: seq<byte>, c: seq<byte>) {
    (if |s| == 1 then |c| == 6 else |c| < |s|) && (c != [] ==>
      && c[0] == LevelOf(kind)
      && exists chain :: Holds(kind, chain, c[1..], s, |s|))
  }

  /** The call in LizardF_compressBlock. */
  method MakeBlock(kind: Codewords, src: array<byte>, hashTable: array<u32>) returns (c: seq<byte>, ghost parsed: seq<Streams>)
    requires 0 < src.Length <= MAX_INPUT_SIZE && hashTable.Length == TableSize(kind)
    modifies hashTable
    ensures Made(kind, src[..], c)
    ensures Parses(kind, parsed, src[..], src.Length, old(hashTable[..])) && BLOCK_SIZE * |parsed| < src.Length + BLOCK_SIZE
    ensures src.Length > 1 ==>
              if c == [] then src.Length <= 1 + Costs(parsed, src.Length)
              else |c| == 1 + Costs(parsed, src.Length) && src.Length <= BLOCK_SIZE * |parsed|
  {
    hide Holds, LevelOf, TableSize, Parses, SomePacks, Costs, Spared;
    var n := src.Length;
    var dst := new byte[n + 7];
    ghost var chain;
    var r;
    r, chain, parsed := Compress(kind, src, n, dst, n - 1, hashTable);
    c := dst[..r];
    if r > 0 {
      assert c[1..] == dst[1..r];
      assert src[..][..n] == src[..];
    }
  }

  lemma MadeDecodes(kind: Codewords, s: seq<byte>, c: seq<byte>, cap: nat)
    requires Made(kind, s, c) && c != [] && |s| <= cap
    ensures DecodeBlock(c, cap) == Done(s)
  {
    hide Holds, DecodeAll, LevelOf;
    var chain :| Holds(kind, chain, c[1..], s, |s|);
    assert c == [LevelOf(kind)] + c[1..] && s[..|s|] == s;
    HeldDecodes(kind, chain, c[1..], s, |s|, cap);
  }

  lemma LizardIsSane(xxh: seq<byte> -> nat)
    requires forall b: seq<byte> :: xxh(b) < 0x1_0000_0000
    ensures Spec.Sane(Lizard(xxh))
  {
    hide DecodeBlocks;
    var env := Lizard(xxh);
    forall b: seq<byte>, cap: nat
      ensures env.decode(b, cap).Done? ==> |env.decode(b, cap).bytes| <= cap
    {
      if b != [] {
        BlocksBounded(KindOf(b[0]), b[1..], [], cap, cap);
      }
    }
  }

  /** The frame layer asks no more of its block codec than this. */
  lemma LizardIsBlockCodec(kind: Codewords, compress: Encoder.Compressor, xxh: seq<byte> -> nat)
    requires forall n: nat, s: seq<byte> :: s != [] ==> Made(kind, s, compress(n, s))
    requires forall b: seq<byte> :: xxh(b) < 0x1_0000_0000
    ensures Spec.Sane(Lizard(xxh)) && Encoder.BlockCodec(Lizard(xxh), compress)
  {
    hide Made, Spec.Sane, Lizard;
    LizardIsSane(xxh);
    forall n: nat, s: seq<byte>
      ensures Encoder.GoodBlock(Lizard(xxh), s, compress(n, s))
    {
      MadeIsGood(kind, s, compress(n, s), xxh);
    }
  }

  lemma MadeIsGood(kind: Codewords, s: seq<byte>, c: seq<byte>, xxh: seq<byte> -> nat)
    requires s != [] ==> Made(kind, s, c)
    ensures Encoder.GoodBlock(Lizard(xxh), s, c)
  {
    hide DecodeBlock;
    if s != [] && c != [] {
      forall cap: nat | |s| <= cap
        ensures DecodeBlock(c, cap) == Done(s)
      {
        MadeDecodes(kind, s, c, cap);
      }
    }
  }

  // ----- The worst that can come -----

  /** A compressor that only ever compresses blocks of one byte, which it cannot help. */
  ghost function Storing(kind: Codewords): Encoder.Compressor {
    (n, s) => if |s| == 1 then [LevelOf(kind), FLAG_UNCOMPRESSED, 1, 0, 0, s[0]] else []
  }

  /** That is a block codec as good as any: with it an update and a frame take all that
      Encoder.WorstUpdate and Encoder.WorstFrame reckon with. */
  lemma StoringIsBlockCodec(kind: Codewords, xxh: seq<byte> -> nat)
    requires forall b: seq<byte> :: xxh(b) < 0x1_0000_0000
    ensures Spec.Sane(Lizard(xxh)) && Encoder.BlockCodec(Lizard(xxh), Storing(kind)) && Encoder.Stores(Storing(kind))
  {
    hide Made, Spec.Sane, Lizard, LevelOf;
    forall n: nat, s: seq<byte> | s != []
      ensures Made(kind, s, Storing(kind)(n, s))
    {
      StoredIsMade(kind, s, Storing(kind)(n, s));
    }
    LizardIsBlockCodec(kind, Storing(kind), xxh);
  }

  lemma StoredIsMade(kind: Codewords, s: seq<byte>, c: seq<byte>)
    requires s != [] && c == if |s| == 1 then [LevelOf(kind), FLAG_UNCOMPRESSED, 1, 0, 0, s[0]] else []
    ensures Made(kind, s, c)
  {
    hide LevelOf;
    if |s| == 1 {
      var chain := Chain.Chain(Chain.Empty, Stored(s));
      assert c[1..] == ChainBytes(kind, chain) by {
        assert LittleEndian.WriteLE24(1) == [1, 0, 0];
        assert [] + ([FLAG_UNCOMPRESSED] + (LittleEndian.WriteLE24(1) + s)) == c[1..];
      }
      assert Content(kind, chain) == [] + s == s[..1];
      assert Holds(kind, chain, c[1..], s, 1);
    }
  }

  // ----- Frames -----

  /** Every block of a frame has been made by Lizard. */
  ghost predicate MadeBlocks(kind: Codewords, b: Encoder.Blocks) {
    b.Then? ==> MadeBlocks(kind, b.init) && b.s != [] && Made(kind, b.s, b.c)
  }

  ghost predicate Cut(b: Encoder.Blocks, max: nat) {
    b.Then? ==> Cut(b.init, max) && 1 <= |b.s| <= max
  }

  lemma {:induction false} MadeBlocksAreCoded(kind: Codewords, b: Encoder.Blocks, xxh: seq<byte> -> nat, max: nat)
    requires MadeBlocks(kind, b) && Cut(b, max)
    ensures Encoder.Coded(Lizard(xxh), b, max)
  {
    hide Made, Lizard, Encoder.GoodBlock;
    if b.Then? {
      MadeBlocksAreCoded(kind, b.init, xxh, max);
      MadeIsGood(kind, b.s, b.c, xxh);
    }
  }

  lemma {:induction false} CutSmall(b: Encoder.Blocks, max: nat, more: nat)
    requires Cut(b, max) && max <= more
    ensures Cut(b, more)
  {
    if b.Then? {
      CutSmall(b.init, max, more);
    }
  }

  /** Frames whose blocks Lizard has made stream back to their source. */
  lemma LizardFrameStreams(kind: Codewords, xxh: seq<byte> -> nat, p: Encoder.Prefs, b: Encoder.Blocks, h: Runs.History)
    requires MadeBlocks(kind, b)
    requires forall x: seq<byte> :: xxh(x) < 0x1_0000_0000
    requires Encoder.GoodPrefs(p) && Cut(b, Spec.BlockSize(p.blockSizeID))
    requires p.contentSize == 0 || p.contentSize == |Encoder.Content(b)|
    requires Runs.Genuine(Lizard(xxh), h)
    ensures Spec.Sane(Lizard(xxh)) && Encoder.Coded(Lizard(xxh), b, 0x1000_0000)
    ensures Runs.AllRead(h) <= Encoder.FrameBytes(Lizard(xxh), p, b) ==> Runs.AllWritten(h) <= Encoder.Content(b)
    ensures Runs.AllRead(h) == Encoder.FrameBytes(Lizard(xxh), p, b)
            && Spec.Settle(Lizard(xxh), Runs.Now(h)) == Spec.Res(Runs.Now(h), []) ==>
              Runs.AllWritten(h) + Runs.Waiting(h) == Encoder.Content(b)
  {
    hide Encoder.FrameBytes, Encoder.Coded, Spec.Sane, Lizard, Runs.Genuine, MadeBlocks, Cut;
    LizardIsSane(xxh);
    MadeBlocksAreCoded(kind, b, xxh, Spec.BlockSize(p.blockSizeID));
    CutSmall(b, Spec.BlockSize(p.blockSizeID), 0x1000_0000);
    MadeBlocksAreCoded(kind, b, xxh, 0x1000_0000);
    if Runs.AllRead(h) <= Encoder.FrameBytes(Lizard(xxh), p, b) {
      Runs.FrameStreams(Lizard(xxh), p, b, h);
    }
  }
}
