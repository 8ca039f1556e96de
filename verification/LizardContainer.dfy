/** A compressed Lizard buffer: a level, and blocks that are stored or made of five streams;
    Lizard_decompress_safe (lizard_decompress.c:72-270), built without Huffman coding. */
module LizardContainer {
  import opened Bytes
  import opened LittleEndian
  import opened LizardCodes
  import opened LizardRoundTrip
  import opened LizardDecoder

  const FLAG_UNCOMPRESSED: byte := 128
  const MIN_CLEVEL: byte := 10
  const MAX_CLEVEL: byte := 29

  /** Levels 10 to 19 use LZ4 codewords, 20 to 29 LIZv1. */
  function KindOf(level: byte): Codewords {
    if level < 20 then LZ4 else LIZv1
  }

  // ----- What is written -----

  /** A stream with its length in front. */
  function Part(x: seq<byte>): seq<byte>
    requires |x| < 0x100_0000
  {
    WriteLE24(|x|) + x
  }

  predicate Short(s: Streams) {
    |s.flags| < 0x100_0000 && |s.literals| < 0x100_0000 && |s.offset16| < 0x100_0000 && |s.offset24| < 0x100_0000
  }

  /** The five streams, of which the first, for lengths, is empty. */
  function Sections(s: Streams): seq<byte>
    requires Short(s)
  {
    Part([]) + (Part(s.offset16) + (Part(s.offset24) + (Part(s.flags) + Part(s.literals))))
  }

  /** A block: stored, or made of sequences and last literals. */
  datatype BlockOf = Stored(bytes: seq<byte>) | Packed(prog: Prog, tail: seq<byte>)

  ghost predicate LegalBlock(kind: Codewords, b: BlockOf, base: nat) {
    match b
    case Stored(bytes) => |bytes| < 0x100_0000
    case Packed(p, tail) =>
      && Legal(kind, p, base) && (p.Start? || |tail| >= WILDCOPYLENGTH) && 1 <= Size(p) + |tail|
      && Short(Block(kind, p, base, tail))
  }

  function BlockLength(b: BlockOf): nat {
    match b case Stored(bytes) => |bytes| case Packed(p, tail) => Size(p) + |tail|
  }

  ghost function BlockBytes(kind: Codewords, b: BlockOf, base: nat): (r: seq<byte>)
    requires LegalBlock(kind, b, base)
    ensures |r| > 0
  {
    match b
    case Stored(bytes) => [FLAG_UNCOMPRESSED] + (WriteLE24(|bytes|) + bytes)
    case Packed(p, tail) => [0] + Sections(Block(kind, p, base, tail))
  }

  ghost function Regenerates(kind: Codewords, b: BlockOf, pre: seq<byte>): (r: seq<byte>)
    requires LegalBlock(kind, b, |pre|)
    ensures |r| == |pre| + BlockLength(b)
  {
    match b case Stored(bytes) => pre + bytes case Packed(p, tail) => Expand(kind, p, pre) + tail
  }

  /** The blocks of a buffer, in the order they were written. */
  datatype Chain = Empty | Chain(init: Chain, block: BlockOf)

  ghost predicate LegalChain(kind: Codewords, c: Chain) {
    match c case Empty => true case Chain(d, b) => LegalChain(kind, d) && LegalBlock(kind, b, Total(d))
  }

  function Total(c: Chain): nat {
    match c case Empty => 0 case Chain(d, b) => Total(d) + BlockLength(b)
  }

  ghost function ChainBytes(kind: Codewords, c: Chain): seq<byte>
    requires LegalChain(kind, c)
  {
    match c case Empty => [] case Chain(d, b) => ChainBytes(kind, d) + BlockBytes(kind, b, Total(d))
  }

  ghost function Content(kind: Codewords, c: Chain): (r: seq<byte>)
    requires LegalChain(kind, c)
    ensures |r| == Total(c)
  {
    match c case Empty => [] case Chain(d, b) => Regenerates(kind, b, Content(kind, d))
  }

  // ----- What is read -----

  datatype PartRead = PartRead(x: seq<byte>, rest: seq<byte>) | NoPart

  /** Without Huffman coding, a stream that is marked as coded is refused. */
  function ReadPart(huff: bool, s: seq<byte>): (r: PartRead)
    ensures r.PartRead? ==> |r.x| + |r.rest| + 3 == |s|
  {
    if huff || |s| < 3 || 3 + ReadLE24(s) > |s| then NoPart
    else PartRead(s[3..3 + ReadLE24(s)], s[3 + ReadLE24(s)..])
  }

  datatype BlockRead = BlockRead(streams: Streams, rest: seq<byte>) | NoBlock

  /** The streams of a block, behind its flags. */
  function ReadSections(res: byte, s: seq<byte>): (r: BlockRead)
    ensures r.BlockRead? ==> |r.rest| < |s|
  {
    if res / 16 % 2 == 1 || |s| < 15 then NoBlock else
    var l := ReadPart(false, s);
    if l.NoPart? || |l.rest| < 3 then NoBlock else
    var o16 := ReadPart(res / 4 % 2 == 1, l.rest);
    if o16.NoPart? then NoBlock else
    var o24 := ReadPart(res / 8 % 2 == 1, o16.rest);
    if o24.NoPart? then NoBlock else
    var flags := ReadPart(res / 2 % 2 == 1, o24.rest);
    if flags.NoPart? then NoBlock else
    var literals := ReadPart(res % 2 == 1, flags.rest);
    if literals.NoPart? then NoBlock else
    BlockRead(Streams(flags.x, literals.x, o16.x, o24.x), literals.rest)
  }

  /** The blocks in `s` are decoded one by one behind `out`. `room` is what the source takes
      for the room left: stored blocks do not reduce it. */
  function DecodeBlocks(kind: Codewords, s: seq<byte>, out: seq<byte>, room: int, cap: nat): Result
    decreases |s|
  {
    if s == [] then Regenerated(out)
    else if s[0] == FLAG_UNCOMPRESSED then
      var r := ReadPart(false, s[1..]);
      if r.NoPart? || |out| + |r.x| > cap then Refused
      else DecodeBlocks(kind, r.rest, out + r.x, room, cap)
    else
      var b := ReadSections(s[0], s[1..]);
      if b.NoBlock? then Refused else
      var d := Decode(kind, b.streams, out, Limits(|out| + room, cap));
      if !d.Regenerated? then d
      else if |d.bytes| <= |out| then Result.Empty
      else DecodeBlocks(kind, b.rest, d.bytes, room - (|d.bytes| - |out|), cap)
  }

  /** Decompressing into a buffer of `cap` bytes. */
  function DecodeAll(s: seq<byte>, cap: nat): Result {
    if s == [] then Result.Empty
    else if s[0] < MIN_CLEVEL || s[0] > MAX_CLEVEL then Refused
    else DecodeBlocks(KindOf(s[0]), s[1..], [], cap, cap)
  }

  // ----- What was written is read -----

  lemma PartInverts(x: seq<byte>, rest: seq<byte>)
    requires |x| < 0x100_0000
    ensures ReadPart(false, Part(x) + rest) == PartRead(x, rest)
  {
    hide ReadLE24, WriteLE24;
    assert Part(x) + rest == WriteLE24(|x|) + (x + rest);
    LE24RoundTrip(|x|, x + rest);
    var s := WriteLE24(|x|) + (x + rest);
    assert s[3..3 + |x|] == x && s[3 + |x|..] == rest;
  }

  lemma SectionsInvert(s: Streams, rest: seq<byte>)
    requires Short(s)
    ensures ReadSections(0, Sections(s) + rest) == BlockRead(s, rest)
  {
    hide Part, ReadPart;
    PartLength([]);
    PartLength(s.offset16);
    PartLength(s.offset24);
    PartLength(s.flags);
    PartLength(s.literals);
    var r4 := Part(s.literals) + rest;
    var r3 := Part(s.flags) + r4;
    var r2 := Part(s.offset24) + r3;
    var r1 := Part(s.offset16) + r2;
    assert Sections(s) + rest == Part([]) + r1;
    PartInverts(s.literals, rest);
    PartInverts(s.flags, r4);
    PartInverts(s.offset24, r3);
    PartInverts(s.offset16, r2);
    PartInverts([], r1);
  }

  lemma PartLength(x: seq<byte>)
    requires |x| < 0x100_0000
    ensures |Part(x)| == 3 + |x|
  {
  }

  lemma StoredStep(kind: Codewords, s: seq<byte>, out: seq<byte>, room: int, cap: nat)
    requires s != [] && s[0] == FLAG_UNCOMPRESSED
    ensures var r := ReadPart(false, s[1..]);
            DecodeBlocks(kind, s, out, room, cap) ==
            if r.NoPart? || |out| + |r.x| > cap then Refused else DecodeBlocks(kind, r.rest, out + r.x, room, cap)
  {
    hide ReadPart;
  }

  lemma PackedStep(kind: Codewords, s: seq<byte>, out: seq<byte>, room: int, cap: nat)
    requires s != [] && s[0] != FLAG_UNCOMPRESSED
    ensures var b, r := ReadSections(s[0], s[1..]), DecodeBlocks(kind, s, out, room, cap);
            if b.NoBlock? then r == Refused else
            var d := Decode(kind, b.streams, out, Limits(|out| + room, cap));
            if !d.Regenerated? then r == d
            else if |d.bytes| <= |out| then r == Result.Empty
            else r == DecodeBlocks(kind, b.rest, d.bytes, room - (|d.bytes| - |out|), cap)
  {
    hide ReadSections, Decode;
  }

  lemma StoredInverts(kind: Codewords, bytes: seq<byte>, rest: seq<byte>, pre: seq<byte>, room: int, cap: nat)
    requires |bytes| < 0x100_0000 && |pre| + |bytes| <= cap
    ensures DecodeBlocks(kind, [FLAG_UNCOMPRESSED] + Part(bytes) + rest, pre, room, cap) == DecodeBlocks(kind, rest, pre + bytes, room, cap)
  {
    hide ReadPart, DecodeBlocks, Part;
    var s := [FLAG_UNCOMPRESSED] + Part(bytes) + rest;
    assert s[1..] == Part(bytes) + rest;
    PartInverts(bytes, rest);
    StoredStep(kind, s, pre, room, cap);
  }

  lemma PackedInverts(kind: Codewords, p: Prog, tail: seq<byte>, rest: seq<byte>, pre: seq<byte>, room: int, cap: nat)
    requires LegalBlock(kind, Packed(p, tail), |pre|) && |pre| + Size(p) + |tail| <= cap <= |pre| + room
    ensures DecodeBlocks(kind, [0] + Sections(Block(kind, p, |pre|, tail)) + rest, pre, room, cap)
            == DecodeBlocks(kind, rest, Expand(kind, p, pre) + tail, room - (Size(p) + |tail|), cap)
  {
    hide ReadSections, DecodeBlocks, Decode, Sections, Block, Expand, Legal, Short;
    var x := Block(kind, p, |pre|, tail);
    var s := [0] + Sections(x) + rest;
    assert s[1..] == Sections(x) + rest;
    SectionsInvert(x, rest);
    BlockDecodes(kind, p, tail, pre, Limits(|pre| + room, cap));
    PackedStep(kind, s, pre, room, cap);
  }

  lemma BlockInverts(kind: Codewords, b: BlockOf, rest: seq<byte>, pre: seq<byte>, room: int, cap: nat) returns (room': int)
    requires LegalBlock(kind, b, |pre|) && |pre| + BlockLength(b) <= cap <= |pre| + room
    ensures DecodeBlocks(kind, BlockBytes(kind, b, |pre|) + rest, pre, room, cap) == DecodeBlocks(kind, rest, Regenerates(kind, b, pre), room', cap)
    ensures cap <= |pre| + BlockLength(b) + room'
  {
    hide DecodeBlocks, Sections, WriteLE24, Block, Expand, Legal, Short;
    match b
    case Stored(bytes) =>
      StoredInverts(kind, bytes, rest, pre, room, cap);
      room' := room;
    case Packed(p, tail) =>
      PackedInverts(kind, p, tail, rest, pre, room, cap);
      room' := room - BlockLength(b);
  }

  lemma {:induction false} ChainInverts(kind: Codewords, c: Chain, rest: seq<byte>, cap: nat) returns (room: int)
    requires LegalChain(kind, c) && Total(c) <= cap
    ensures DecodeBlocks(kind, ChainBytes(kind, c) + rest, [], cap, cap) == DecodeBlocks(kind, rest, Content(kind, c), room, cap)
    ensures cap <= Total(c) + room
    decreases c
  {
    hide DecodeBlocks, BlockBytes, Regenerates, LegalBlock;
    match c
    case Empty =>
      assert [] + rest == rest;
      room := cap;
    case Chain(d, b) =>
      var bytes := BlockBytes(kind, b, Total(d));
      assert ChainBytes(kind, c) + rest == ChainBytes(kind, d) + (bytes + rest);
      var room1 := ChainInverts(kind, d, bytes + rest, cap);
      room := BlockInverts(kind, b, rest, Content(kind, d), room1, cap);
  }

  /** Decompressing legal blocks regenerates what they stand for, if there is room for that. */
  lemma ChainDecodes(level: byte, c: Chain, cap: nat)
    requires MIN_CLEVEL <= level <= MAX_CLEVEL && LegalChain(KindOf(level), c) && Total(c) <= cap
    ensures DecodeAll([level] + ChainBytes(KindOf(level), c), cap) == Regenerated(Content(KindOf(level), c))
  {
    hide ChainBytes, Content;
    var kind := KindOf(level);
    var bytes := ChainBytes(kind, c);
    var room := ChainInverts(kind, c, [], cap);
    assert bytes + [] == bytes && ([level] + bytes)[1..] == bytes;
  }
}
