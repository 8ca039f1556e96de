/** Lizard_compress at the levels 11 and 20: blocks of the source, parsed and written one
    after the other (lizard_compress.c:141-250, 472-547). */
module LizardCompress {
  import opened Bytes
  import opened LittleEndian
  import opened LizardCodes
  import opened LizardEncoder
  import opened LizardGreedy
  import opened LizardParser
  import opened LizardContainer
  import opened LizardDecompress

  const MAX_INPUT_SIZE: nat := 0x7e00_0000
  const TWO32: nat := 0x1_0000_0000

  /** LIZARD_COMPRESSBOUND. */
  function CompressBound(n: nat): nat {
    if n > MAX_INPUT_SIZE then 0 else n + 2 + (n / BLOCK_SIZE + 1) * 4
  }

  function LevelOf(kind: Codewords): (level: byte)
    ensures MIN_CLEVEL <= level <= MAX_CLEVEL && KindOf(level) == kind
  {
    if kind.LZ4? then 11 else 20
  }

  function Sum(s: Streams): nat {
    |s.flags| + |s.literals| + |s.offset16| + |s.offset24|
  }

  /** A block is stored straight away if its last literals are few or its streams too long. */
  predicate Packs(s: Streams, inputSize: nat) {
    |s.literals| >= WILDCOPYLENGTH && Sum(s) + 16 <= inputSize
  }

  /** The bytes of a block that is written as streams. */
  function PackedSize(s: Streams): nat {
    16 + Sum(s)
  }

  /** What a block takes: its streams are kept if they save enough, and otherwise it is stored. */
  function Cost(s: Streams, inputSize: nat): nat {
    if Packs(s, inputSize) && PackedSize(s) + PackedSize(s) / 32 + 512 <= inputSize then PackedSize(s) else 4 + inputSize
  }

  /** MEM_writeLE24. */
  method Store24(v: nat, dst: array<byte>, at: nat)
    requires v < 0x100_0000 && at + 3 <= dst.Length
    modifies dst
    ensures dst[at..at + 3] == WriteLE24(v)
    ensures forall k :: 0 <= k < dst.Length && !(at <= k < at + 3) ==> dst[k] == old(dst[k])
  {
    dst[at], dst[at + 1], dst[at + 2] := v % 0x100, v / 0x100 % 0x100, v / 0x1_0000;
  }

  /** Lizard_writeStream, without Huffman coding. */
  method WriteStream(stream: seq<byte>, dst: array<byte>, at: nat, oend: nat) returns (ok: bool, op: nat)
    requires |stream| < 0x100_0000 && oend <= dst.Length
    modifies dst
    ensures ok <==> at + 3 + |stream| <= oend
    ensures if ok then op == at + 3 + |stream| && dst[at..op] == Part(stream) else op == at
    ensures forall k :: 0 <= k < dst.Length && !(at <= k < op) ==> dst[k] == old(dst[k])
  {
    if at + 3 + |stream| > oend {
      return false, at;
    }
    Store24(|stream|, dst, at);
    ghost var head := dst[at..at + 3];
    op := at + 3;
    forall k | 0 <= k < |stream| {
      dst[op + k] := stream[k];
    }
    op := op + |stream|;
    ok := true;
    assert dst[at..at + 3] == head && dst[at + 3..op] == stream;
    SliceConcat(dst[..], at, at + 3, op);
  }

  /** The five streams, one after the other. */
  method WriteStreams(s: Streams, dst: array<byte>, at: nat, oend: nat) returns (ok: bool, op: nat)
    requires Short(s) && oend <= dst.Length
    modifies dst
    ensures ok <==> at + 15 + Sum(s) <= oend
    ensures ok ==> op == at + 15 + Sum(s) && dst[at..op] == Sections(s)
    ensures forall k :: 0 <= k < dst.Length && !(at <= k < oend) ==> dst[k] == old(dst[k])
  {
    hide Part;
    var op0, op1, op2, op3: nat;
    ok, op := WriteStream([], dst, at, oend);
    if !ok { return; }
    op0 := op;
    ghost var x0 := dst[at..op0];
    ok, op := WriteStream(s.offset16, dst, op, oend);
    if !ok { return; }
    op1 := op;
    ghost var x1 := dst[op0..op1];
    ok, op := WriteStream(s.offset24, dst, op, oend);
    if !ok { return; }
    op2 := op;
    ghost var x2 := dst[op1..op2];
    ok, op := WriteStream(s.flags, dst, op, oend);
    if !ok { return; }
    op3 := op;
    ghost var x3 := dst[op2..op3];
    ok, op := WriteStream(s.literals, dst, op, oend);
    if !ok { return; }
    ghost var x4 := dst[op3..op];
    assert dst[at..op0] == x0 && dst[op0..op1] == x1 && dst[op1..op2] == x2 && dst[op2..op3] == x3;
    Five(dst[..], at, op0, op1, op2, op3, op);
  }

  lemma Five(s: seq<byte>, a: nat, b: nat, c: nat, d: nat, e: nat, f: nat)
    requires a <= b <= c <= d <= e <= f <= |s|
    ensures s[a..f] == s[a..b] + (s[b..c] + (s[c..d] + (s[d..e] + s[e..f])))
  {
    SliceConcat(s, d, e, f);
    SliceConcat(s, c, d, f);
    SliceConcat(s, b, c, f);
    SliceConcat(s, a, b, f);
  }

  /** The branch that stores a block. The room left is computed modulo 2^32. */
  method WriteStored(src: array<byte>, ip: nat, inputSize: nat, dst: array<byte>, start: nat, oend: nat) returns (ok: bool, op: nat)
    requires src != dst && ip + inputSize <= src.Length && inputSize <= BLOCK_SIZE
    requires start < 0x8000_0000 && oend < 0x8000_0000 && oend <= dst.Length
    requires oend < start ==> start + 4 + inputSize <= dst.Length
    modifies dst
    ensures ok <==> oend < start || start + 4 + inputSize <= oend
    ensures ok ==> op == start + 4 + inputSize && dst[start..op] == [FLAG_UNCOMPRESSED] + (WriteLE24(inputSize) + src[ip..ip + inputSize])
    ensures !ok ==> op == start
    ensures forall k :: 0 <= k < dst.Length && !(start <= k < op) ==> dst[k] == old(dst[k])
  {
    hide WriteLE24;
    if (oend - start) % TWO32 < inputSize + 4 {
      return false, start;
    }
    dst[start] := FLAG_UNCOMPRESSED;
    op := start + 1;
    Store24(inputSize, dst, op);
    ghost var head := dst[op..op + 3];
    op := op + 3;
    Memcpy(dst, op, src, ip, inputSize);
    op := op + inputSize;
    ok := true;
    assert dst[start..start + 1] == [FLAG_UNCOMPRESSED] && dst[start + 1..start + 4] == head;
    SliceConcat(dst[..], start + 1, start + 4, op);
    SliceConcat(dst[..], start, start + 1, op);
  }

  /** What a parser has left of a block, if it is written as streams, or as it is. */
  lemma PackedIsLegal(kind: Codewords, s: Streams, src: seq<byte>, ip: nat, inputSize: nat, p: Prog, tail: seq<byte>)
    requires Written(kind, s, src, ip, inputSize, p, tail) && Packs(s, inputSize)
    ensures Short(s) && LegalBlock(kind, Packed(p, tail), ip)
    ensures BlockBytes(kind, Packed(p, tail), ip) == [0] + Sections(s)
    ensures |src[..ip]| == ip && Regenerates(kind, Packed(p, tail), src[..ip]) == src[..ip + inputSize]
  {
    hide Sections, Expand, Block, Legal;
  }

  lemma StoredIsLegal(kind: Codewords, src: seq<byte>, ip: nat, inputSize: nat)
    requires ip + inputSize <= |src| && inputSize <= BLOCK_SIZE
    ensures var b := Stored(src[ip..ip + inputSize]);
            && LegalBlock(kind, b, ip)
            && BlockBytes(kind, b, ip) == [FLAG_UNCOMPRESSED] + (WriteLE24(inputSize) + src[ip..ip + inputSize])
            && |src[..ip]| == ip && Regenerates(kind, b, src[..ip]) == src[..ip + inputSize]
  {
    assert src[..ip] + src[ip..ip + inputSize] == src[..ip + inputSize];
  }

  ghost predicate Written(kind: Codewords, s: Streams, src: seq<byte>, ip: nat, inputSize: nat, p: Prog, tail: seq<byte>) {
    && ip + inputSize <= |src| && 1 <= inputSize <= BLOCK_SIZE
    && Legal(kind, p, ip) && s == Block(kind, p, ip, tail) && (p.Start? || |tail| >= WILDCOPYLENGTH)
    && Expand(kind, p, src[..ip]) + tail == src[..ip + inputSize]
  }

  /** Lizard_writeBlock. The flags of a block are written before the room is checked: if there
      is none at all, one byte goes past the end and the block fails. */
  method WriteBlock(kind: Codewords, s: Streams, src: array<byte>, ip: nat, inputSize: nat, dst: array<byte>, start: nat, oend: nat,
                    ghost p: Prog, ghost tail: seq<byte>)
    returns (ok: bool, op: nat, ghost b: BlockOf)
    requires src != dst && Written(kind, s, src[..], ip, inputSize, p, tail)
    requires start < 0x8000_0000 && oend < 0x8000_0000 && oend < dst.Length
    requires oend < start ==> start + 4 + inputSize <= dst.Length
    modifies dst
    ensures ok ==> LegalBlock(kind, b, ip) && start <= op <= dst.Length && dst[start..op] == BlockBytes(kind, b, ip)
    ensures ok ==> Regenerates(kind, b, src[..][..ip]) == src[..][..ip + inputSize]
    ensures ok ==> op <= start + 4 + inputSize && (start <= oend ==> op <= oend)
    ensures !ok ==> oend < start + 4 + inputSize
    ensures start <= oend ==> (ok <==> start + Cost(s, inputSize) <= oend) && (ok ==> op == start + Cost(s, inputSize))
    ensures oend < start ==> (ok <==> !Packs(s, inputSize)) && (ok ==> op == start + 4 + inputSize)
    ensures start == oend ==> !ok && dst[oend] == if Packs(s, inputSize) then 0 else old(dst[oend])
    ensures forall k :: 0 <= k < dst.Length && (k < start || (start < oend <= k) || start == oend < k) ==> dst[k] == old(dst[k])
  {
    hide Legal, Expand, Block, WriteLE24, Sections, LegalBlock, BlockBytes, Regenerates, Packs, Sum;
    b := Stored(src[ip..ip + inputSize]);
    if Packs(s, inputSize) {
      PackedIsLegal(kind, s, src[..], ip, inputSize, p, tail);
      PacksFits(s, inputSize);
      dst[start] := 0;
      ok, op := WriteStreams(s, dst, start + 1, oend);
      if !ok {
        return;
      }
      var size := op - start;
      if size + size / 32 + 512 <= inputSize {
        b := Packed(p, tail);
        assert dst[start..op] == [0] + dst[start + 1..op];
        return;
      }
    }
    ok, op := WriteStored(src, ip, inputSize, dst, start, oend);
    StoredIsLegal(kind, src[..], ip, inputSize);
    assert src[..][ip..ip + inputSize] == src[ip..ip + inputSize];
  }

  lemma PacksFits(s: Streams, inputSize: nat)
    requires Packs(s, inputSize)
    ensures PackedSize(s) <= inputSize && PackedSize(s) == 16 + Sum(s)
  {
  }

  // ----- All blocks -----

  /** The blocks written so far are legal and stand for the source up to `at`. */
  ghost predicate Holds(kind: Codewords, c: Chain, bytes: seq<byte>, s: seq<byte>, at: nat) {
    && at <= |s| && LegalChain(kind, c) && Total(c) == at
    && bytes == ChainBytes(kind, c) && Content(kind, c) == s[..at]
  }

  lemma HoldsNothing(kind: Codewords, s: seq<byte>)
    ensures Holds(kind, Chain.Empty, [], s, 0)
  {
  }

  lemma HoldsMore(kind: Codewords, c: Chain, bytes: seq<byte>, s: seq<byte>, at: nat, b: BlockOf, more: seq<byte>, n: nat)
    requires Holds(kind, c, bytes, s, at) && LegalBlock(kind, b, at) && at + n <= |s|
    requires more == BlockBytes(kind, b, at) && Regenerates(kind, b, s[..at]) == s[..at + n]
    ensures Holds(kind, Chain(c, b), bytes + more, s, at + n)
  {
    hide LegalBlock, BlockBytes, Regenerates;
    assert |s[..at]| == at;
    assert |Regenerates(kind, b, s[..at])| == at + BlockLength(b);
  }

  /** The block has been written at `op` of the memory `d`, which is `e` now. */
  lemma HoldsNext(kind: Codewords, c: Chain, d: seq<byte>, e: seq<byte>, op: nat, next: nat, s: seq<byte>, at: nat, b: BlockOf, n: nat)
    requires 1 <= op <= next <= |d| == |e| && (forall k :: 0 <= k < op ==> e[k] == d[k])
    requires Holds(kind, c, d[1..op], s, at) && LegalBlock(kind, b, at) && at + n <= |s|
    requires e[op..next] == BlockBytes(kind, b, at) && Regenerates(kind, b, s[..at]) == s[..at + n]
    ensures Holds(kind, Chain(c, b), e[1..next], s, at + n) && e[0] == d[0]
  {
    hide Holds, LegalBlock, BlockBytes, Regenerates;
    assert e[1..op] == d[1..op] && e[1..next] == e[1..op] + e[op..next];
    HoldsMore(kind, c, d[1..op], s, at, b, e[op..next], n);
  }

  /** What a block may take, and what the others leave for it. */
  function Taken(done: nat, blocks: nat): nat {
    1 + done + 4 * blocks
  }

  lemma RoomForNext(n: nat, done: nat, blocks: nat, part: nat)
    requires n <= MAX_INPUT_SIZE && done < n && done == BLOCK_SIZE * blocks && part <= n - done
    ensures Taken(done, blocks) + part + 4 == Taken(done + part, blocks + 1) <= CompressBound(n) < 0x8000_0000
    ensures part == (if BLOCK_SIZE < n - done then BLOCK_SIZE else n - done) ==> part == PartSize(n, blocks)
  {
    assert blocks <= n / BLOCK_SIZE;
  }

  lemma Expanded(kind: Codewords, p: Prog, s: seq<byte>, base: nat, anchor: nat, end: nat)
    requires Parsed(kind, p, base, s, anchor) && anchor <= end <= |s|
    ensures Legal(kind, p, base) && |s[..base]| == base && Expand(kind, p, s[..base]) + s[anchor..end] == s[..end]
  {
  }

  lemma NothingPacks(kind: Codewords, base: nat, tail: seq<byte>)
    ensures !Packs(Block(kind, Start, base, tail), |tail|)
  {
  }

  /** The streams of a block as a parser may leave them. */
  ghost predicate IsParse(kind: Codewords, s: Streams, src: seq<byte>, ip: nat, inputSize: nat) {
    exists p, tail :: Written(kind, s, src, ip, inputSize, p, tail)
  }

  /** The streams are those of what the parser finds with that hash table. */
  ghost predicate IsGreedy(kind: Codewords, streams: Streams, src: seq<byte>, ip: nat, inputSize: nat, table: Table)
    requires ip + inputSize <= |src| && ip + inputSize <= MAX_INPUT_SIZE && |table| == TableSize(kind)
  {
    var q := ParseOf(kind, src, ip, ip + inputSize, table);
    && Legal(kind, q.p, ip) && q.anchor <= ip + inputSize
    && streams == Block(kind, q.p, ip, src[q.anchor..ip + inputSize])
  }

  /** The hash table as it is before block number `k`. */
  function TableBefore(kind: Codewords, src: seq<byte>, n: nat, table: Table, k: nat): (t: Table)
    requires n <= |src| && n <= MAX_INPUT_SIZE && |table| == TableSize(kind) && BLOCK_SIZE * k < n + BLOCK_SIZE
    ensures |t| == |table|
  {
    if k == 0 then table else
      var at := BLOCK_SIZE * (k - 1);
      ParseOf(kind, src, at, at + PartSize(n, k - 1), TableBefore(kind, src, n, table, k - 1)).table
  }

  /** The size of block number `k`. */
  function PartSize(n: nat, k: nat): (size: nat)
    requires BLOCK_SIZE * k < n
    ensures 1 <= size <= BLOCK_SIZE && BLOCK_SIZE * k + size <= n
  {
    if BLOCK_SIZE < n - BLOCK_SIZE * k then BLOCK_SIZE else n - BLOCK_SIZE * k
  }

  /** The blocks parsed so far, the first of the source. */
  ghost predicate Parses(kind: Codewords, parsed: seq<Streams>, src: seq<byte>, n: nat, table: Table)
    requires n <= |src| && n <= MAX_INPUT_SIZE && |table| == TableSize(kind)
  {
    forall k: nat :: k < |parsed| ==>
      && BLOCK_SIZE * k < n
      && IsParse(kind, parsed[k], src, BLOCK_SIZE * k, PartSize(n, k))
      && IsGreedy(kind, parsed[k], src, BLOCK_SIZE * k, PartSize(n, k), TableBefore(kind, src, n, table, k))
  }

  /** What they take all together. */
  function Costs(parsed: seq<Streams>, n: nat): nat
    requires BLOCK_SIZE * |parsed| < n + BLOCK_SIZE
  {
    if parsed == [] then 0
    else Costs(parsed[..|parsed| - 1], n) + Cost(parsed[|parsed| - 1], PartSize(n, |parsed| - 1))
  }

  /** Some of them can be packed. */
  ghost predicate SomePacks(parsed: seq<Streams>, n: nat) {
    exists k: nat :: k < |parsed| && BLOCK_SIZE * k < n && Packs(parsed[k], PartSize(n, k))
  }

  lemma ParsesOn(kind: Codewords, parsed: seq<Streams>, src: seq<byte>, n: nat, table: Table, s: Streams)
    requires n <= |src| && n <= MAX_INPUT_SIZE && |table| == TableSize(kind)
    requires Parses(kind, parsed, src, n, table) && BLOCK_SIZE * |parsed| < n
    requires IsParse(kind, s, src, BLOCK_SIZE * |parsed|, PartSize(n, |parsed|))
    requires IsGreedy(kind, s, src, BLOCK_SIZE * |parsed|, PartSize(n, |parsed|), TableBefore(kind, src, n, table, |parsed|))
    ensures Parses(kind, parsed + [s], src, n, table)
    ensures Costs(parsed + [s], n) == Costs(parsed, n) + Cost(s, PartSize(n, |parsed|))
    ensures !SomePacks(parsed, n) ==> (SomePacks(parsed + [s], n) <==> Packs(s, PartSize(n, |parsed|)))
  {
    hide IsParse, IsGreedy, TableBefore, Packs, Cost, PartSize, SomePacks, Costs;
    PacksOn(parsed, n, s);
    CostsOn(parsed, n, s);
    var more := parsed + [s];
    assert more[|parsed|] == s && forall k :: 0 <= k < |parsed| ==> more[k] == parsed[k];
  }

  lemma CostsOn(parsed: seq<Streams>, n: nat, s: Streams)
    requires BLOCK_SIZE * |parsed| < n
    ensures Costs(parsed + [s], n) == Costs(parsed, n) + Cost(s, PartSize(n, |parsed|))
  {
    hide Cost, PartSize;
    var more := parsed + [s];
    assert more[|parsed|] == s && more[..|more| - 1] == parsed;
  }

  lemma PacksOn(parsed: seq<Streams>, n: nat, s: Streams)
    requires BLOCK_SIZE * |parsed| < n
    ensures !SomePacks(parsed, n) ==> (SomePacks(parsed + [s], n) <==> Packs(s, PartSize(n, |parsed|)))
  {
    hide Packs, PartSize;
    var more := parsed + [s];
    assert more[|parsed|] == s;
    forall k: nat | k < |parsed|
      ensures more[k] == parsed[k] && (!SomePacks(parsed, n) ==> !(BLOCK_SIZE * k < n && Packs(more[k], PartSize(n, k))))
    {
    }
  }

  /** What lies outside the room for the output, but for one byte, is as it was. */
  ghost predicate Spared(d: seq<byte>, e: seq<byte>, maxOut: nat, bound: nat) {
    && |d| == |e|
    && (maxOut > 0 ==> forall k :: maxOut < k < |d| ==> e[k] == d[k])
    && (maxOut >= bound ==> forall k :: maxOut <= k < |d| ==> e[k] == d[k])
  }

  lemma SparedFirst(d: seq<byte>, e: seq<byte>, maxOut: nat, n: nat)
    requires |d| == |e| && n <= MAX_INPUT_SIZE && forall k :: 1 <= k < |d| ==> e[k] == d[k]
    ensures Spared(d, e, maxOut, CompressBound(n))
  {
  }

  lemma SparedStill(d: seq<byte>, e: seq<byte>, f: seq<byte>, maxOut: nat, bound: nat, start: nat)
    requires Spared(d, e, maxOut, bound) && |e| == |f|
    requires maxOut > 0 ==> start <= maxOut
    requires maxOut >= bound ==> start < maxOut
    requires forall k :: 0 <= k < |e| && (k < start || (start < maxOut <= k) || start == maxOut < k) ==> f[k] == e[k]
    ensures Spared(d, f, maxOut, bound)
  {
  }

  /** One block of the source, parsed: the streams stand for it. */
  method ParseBlock(ctx: CStream, src: array<byte>, ip: nat, inputPart: nat, hashTable: array<u32>)
    returns (streams: Streams, ghost tail: seq<byte>)
    requires ip + inputPart <= src.Length && 1 <= inputPart <= BLOCK_SIZE && ip + inputPart <= MAX_INPUT_SIZE
    requires hashTable.Length == TableSize(ctx.kind)
    modifies ctx, hashTable
    ensures Written(ctx.kind, streams, src[..], ip, inputPart, ctx.prog, tail)
    ensures inputPart < MIN_LENGTH ==> !Packs(streams, inputPart)
    ensures IsGreedy(ctx.kind, streams, src[..], ip, inputPart, old(hashTable[..]))
    ensures hashTable[..] == ParseOf(ctx.kind, src[..], ip, ip + inputPart, old(hashTable[..])).table
  {
    hide Parsed, Legal, Expand, Block, Packs, ParseOf, TableSize;
    ctx.InitBlock(ip);
    var parser := new Parser(ctx.kind, src, ip + inputPart, hashTable);
    ghost var anchor := parser.Compress(ctx, ip);
    streams := Streams(ctx.flags, ctx.literals, ctx.offset16, ctx.offset24);
    ghost var s := src[..];
    tail := src[anchor..ip + inputPart];
    assert tail == s[anchor..ip + inputPart];
    Expanded(ctx.kind, ctx.prog, s, ip, anchor, ip + inputPart);
    if ctx.prog.Start? {
      StartParsed(ctx.kind, s, ip, anchor);
      NothingPacks(ctx.kind, ip, tail);
    }
  }

  /** One block of the source, parsed and written. */
  method CompressBlock(ctx: CStream, src: array<byte>, ip: nat, inputPart: nat, hashTable: array<u32>,
                       dst: array<byte>, start: nat, oend: nat)
    returns (ok: bool, op: nat, ghost b: BlockOf, parsed: Streams)
    requires src != dst && ip + inputPart <= src.Length && 1 <= inputPart <= BLOCK_SIZE && ip + inputPart <= MAX_INPUT_SIZE
    requires hashTable.Length == TableSize(ctx.kind)
    requires start < 0x8000_0000 && oend < 0x8000_0000 && oend < dst.Length
    requires oend < start ==> start + 4 + inputPart <= dst.Length
    modifies ctx, hashTable, dst
    ensures ok ==> LegalBlock(ctx.kind, b, ip) && start <= op <= dst.Length && dst[start..op] == BlockBytes(ctx.kind, b, ip)
    ensures ok ==> Regenerates(ctx.kind, b, src[..][..ip]) == src[..][..ip + inputPart]
    ensures ok ==> op <= start + 4 + inputPart && (start <= oend ==> op <= oend)
    ensures !ok ==> oend < start + 4 + inputPart
    ensures IsParse(ctx.kind, parsed, src[..], ip, inputPart) && (inputPart < MIN_LENGTH ==> !Packs(parsed, inputPart))
    ensures IsGreedy(ctx.kind, parsed, src[..], ip, inputPart, old(hashTable[..]))
    ensures hashTable[..] == ParseOf(ctx.kind, src[..], ip, ip + inputPart, old(hashTable[..])).table
    ensures start <= oend ==> (ok <==> start + Cost(parsed, inputPart) <= oend) && (ok ==> op == start + Cost(parsed, inputPart))
    ensures oend < start ==> (ok <==> !Packs(parsed, inputPart)) && (ok ==> op == start + 4 + inputPart)
    ensures forall k :: 0 <= k < dst.Length && (k < start || (start < oend <= k) || start == oend < k) ==> dst[k] == old(dst[k])
  {
    hide *;
    ghost var s := src[..];
    ghost var tail;
    parsed, tail := ParseBlock(ctx, src, ip, inputPart, hashTable);
    ok, op, b := WriteBlock(ctx.kind, parsed, src, ip, inputPart, dst, start, oend, ctx.prog, tail);
    assert src[..] == s;
    IsParsed(ctx.kind, parsed, s, ip, inputPart, ctx.prog, tail);
  }

  lemma IsParsed(kind: Codewords, s: Streams, src: seq<byte>, ip: nat, inputSize: nat, p: Prog, tail: seq<byte>)
    requires Written(kind, s, src, ip, inputSize, p, tail)
    ensures IsParse(kind, s, src, ip, inputSize)
  {
    hide Written;
  }

  lemma StartParsed(kind: Codewords, s: seq<byte>, base: nat, at: nat)
    requires Parsed(kind, Start, base, s, at)
    ensures at == base
  {
  }

  /** What has been done when the source up to `at` has been compressed: `bytes` lie behind the
      level, and `now` is the hash table. */
  ghost predicate UpTo(kind: Codewords, s: seq<byte>, n: nat, table: Table, roomy: bool, c: Chain, parsed: seq<Streams>,
                       bytes: seq<byte>, at: nat, now: Table)
    requires n <= |s| && n <= MAX_INPUT_SIZE && |table| == TableSize(kind)
  {
    && at <= n && (at < n ==> at == BLOCK_SIZE * |parsed|) && at <= BLOCK_SIZE * |parsed| < at + BLOCK_SIZE
    && 1 + |bytes| <= Taken(at, |parsed|) <= CompressBound(n)
    && Holds(kind, c, bytes, s, at) && Parses(kind, parsed, s, n, table) && now == TableBefore(kind, s, n, table, |parsed|)
    && (roomy ==> |bytes| == Costs(parsed, n))
    && (!roomy ==> 1 + |bytes| == Taken(at, |parsed|) && !SomePacks(parsed, n))
    && (n < MIN_LENGTH ==> |parsed| == if at == 0 then 0 else 1)
  }

  lemma UpToNothing(kind: Codewords, s: seq<byte>, n: nat, table: Table, roomy: bool)
    requires n <= |s| && n <= MAX_INPUT_SIZE && |table| == TableSize(kind)
    ensures UpTo(kind, s, n, table, roomy, Chain.Empty, [], [], 0, table)
  {
    hide Holds, Parses, SomePacks, CompressBound, TableBefore;
    NothingParses(kind, s, n, table);
    HoldsNothing(kind, s);
    BoundAtLeast(n);
  }

  /** One block more. */
  lemma UpToNext(kind: Codewords, s: seq<byte>, n: nat, table: Table, roomy: bool, c: Chain, parsed: seq<Streams>,
                 at: nat, now: Table, d: seq<byte>, e: seq<byte>, op: nat, next: nat, b: BlockOf, streams: Streams)
    requires n <= |s| && n <= MAX_INPUT_SIZE && |table| == TableSize(kind)
    requires 1 <= op <= next <= |d| == |e| && (forall k :: 0 <= k < op ==> e[k] == d[k])
    requires UpTo(kind, s, n, table, roomy, c, parsed, d[1..op], at, now) && at < n && |now| == TableSize(kind)
    requires LegalBlock(kind, b, at) && e[op..next] == BlockBytes(kind, b, at)
    requires var part := PartSize(n, |parsed|);
             && Regenerates(kind, b, s[..at]) == s[..at + part]
             && IsParse(kind, streams, s, at, part) && IsGreedy(kind, streams, s, at, part, now)
             && if roomy then next == op + Cost(streams, part) <= op + 4 + part
                else next == op + 4 + part && !Packs(streams, part)
    ensures var part := PartSize(n, |parsed|);
            UpTo(kind, s, n, table, roomy, Chain(c, b), parsed + [streams], e[1..next], at + part,
                 ParseOf(kind, s, at, at + part, now).table)
  {
    hide Holds, Parses, SomePacks, CompressBound, TableBefore, LegalBlock, BlockBytes, Regenerates, IsParse, IsGreedy, Packs, Cost, Costs;
    hide ParseOf, Taken;
    var part := PartSize(n, |parsed|);
    RoomForNext(n, at, |parsed|, part);
    AllTaken(at, |parsed|);
    AllTaken(at + part, |parsed| + 1);
    HoldsNext(kind, c, d, e, op, next, s, at, b, part);
    ParsesOn(kind, parsed, s, n, table, streams);
    TableNext(kind, s, n, table, |parsed|);
  }

  lemma PartOf(kind: Codewords, s: seq<byte>, n: nat, table: Table, roomy: bool, c: Chain, parsed: seq<Streams>,
               bytes: seq<byte>, at: nat, now: Table)
    requires n <= |s| && n <= MAX_INPUT_SIZE && |table| == TableSize(kind) && at < n
    requires UpTo(kind, s, n, table, roomy, c, parsed, bytes, at, now)
    ensures at == BLOCK_SIZE * |parsed| && |now| == TableSize(kind)
    ensures PartSize(n, |parsed|) == if BLOCK_SIZE < n - at then BLOCK_SIZE else n - at
    ensures 1 + |bytes| + PartSize(n, |parsed|) + 4 <= CompressBound(n) < 0x8000_0000
  {
    hide Holds, Parses, SomePacks, Costs, CompressBound;
    RoomForNext(n, at, |parsed|, PartSize(n, |parsed|));
  }

  /** A block that does not fit. */
  lemma UpToFailed(kind: Codewords, s: seq<byte>, n: nat, table: Table, roomy: bool, c: Chain, parsed: seq<Streams>,
                   bytes: seq<byte>, at: nat, now: Table, streams: Streams)
    requires n <= |s| && n <= MAX_INPUT_SIZE && |table| == TableSize(kind) && at < n && |now| == TableSize(kind)
    requires UpTo(kind, s, n, table, roomy, c, parsed, bytes, at, now)
    requires var part := PartSize(n, |parsed|);
             && IsParse(kind, streams, s, at, part) && IsGreedy(kind, streams, s, at, part, now)
             && (!roomy ==> Packs(streams, part))
    ensures Parses(kind, parsed + [streams], s, n, table) && BLOCK_SIZE * |parsed + [streams]| < n + BLOCK_SIZE
    ensures roomy ==> Costs(parsed + [streams], n) == |bytes| + Cost(streams, PartSize(n, |parsed|))
    ensures !roomy ==> SomePacks(parsed + [streams], n)
    ensures n < MIN_LENGTH ==> at == 0
  {
    hide Holds, Parses, SomePacks, CompressBound, TableBefore, IsParse, IsGreedy, Packs, Cost, Costs;
    ParsesOn(kind, parsed, s, n, table, streams);
  }

  lemma UpToEnd(kind: Codewords, s: seq<byte>, n: nat, table: Table, roomy: bool, c: Chain, parsed: seq<Streams>,
                bytes: seq<byte>, now: Table)
    requires n <= |s| && n <= MAX_INPUT_SIZE && |table| == TableSize(kind)
    requires UpTo(kind, s, n, table, roomy, c, parsed, bytes, n, now)
    ensures Holds(kind, c, bytes, s, n) && 1 + |bytes| <= CompressBound(n) && n <= BLOCK_SIZE * |parsed| < n + BLOCK_SIZE
    ensures Parses(kind, parsed, s, n, table)
    ensures roomy ==> |bytes| == Costs(parsed, n)
    ensures !roomy ==> 1 + |bytes| == 1 + n + 4 * |parsed| && !SomePacks(parsed, n)
    ensures n < MIN_LENGTH ==> |parsed| == if n == 0 then 0 else 1
  {
    hide Holds, Parses, SomePacks, CompressBound, TableBefore, Costs;
    AllTaken(n, |parsed|);
  }

  /** Lizard_compress at level 11 or 20, whatever the hash table holds: 0, or how many bytes
      were written. They stand for the source, fit the buffer unless its size is given as 0,
      and there is no failure if the buffer has the size it should have. With a size of 0
      there is a failure exactly when some block can be packed; otherwise all are stored. */
  method Compress(kind: Codewords, src: array<byte>, n: nat, dst: array<byte>, maxOut: nat, hashTable: array<u32>)
    returns (r: nat, ghost c: Chain, ghost parsed: seq<Streams>)
    requires src != dst && n <= src.Length && n <= MAX_INPUT_SIZE && hashTable.Length == TableSize(kind)
    requires maxOut < dst.Length && maxOut < 0x8000_0000
    requires maxOut == 0 ==> CompressBound(n) <= dst.Length
    modifies dst, hashTable
    ensures r > 0 ==> r <= dst.Length && dst[..r] == [LevelOf(kind)] + dst[1..r] && Holds(kind, c, dst[1..r], src[..], n)
    ensures r <= CompressBound(n)
    ensures maxOut > 0 ==> r <= maxOut
    ensures maxOut >= CompressBound(n) ==> r > 0
    ensures Parses(kind, parsed, src[..], n, old(hashTable[..])) && BLOCK_SIZE * |parsed| < n + BLOCK_SIZE
    ensures maxOut > 0 ==> if r > 0 then r == 1 + Costs(parsed, n) && n <= BLOCK_SIZE * |parsed| else maxOut < 1 + Costs(parsed, n)
    ensures maxOut == 0 ==> (r == 0 <==> SomePacks(parsed, n))
    ensures maxOut == 0 && r > 0 ==> r == 1 + n + 4 * |parsed| && BLOCK_SIZE * |parsed| < n + BLOCK_SIZE && n <= BLOCK_SIZE * |parsed|
    ensures maxOut == 0 && n < MIN_LENGTH ==> r == if n == 0 then 1 else n + 5
    ensures Spared(old(dst[..]), dst[..], maxOut, CompressBound(n))
  {
    hide Holds, CompressBound, LevelOf, LegalBlock, BlockBytes, Regenerates, TableSize, CStream.Valid, CStream.View;
    hide Parses, SomePacks, IsParse, IsGreedy, ParseOf, Packs, Spared, PartSize, Taken, Sum, Cost, Costs, TableBefore, UpTo;
    ghost var s, table := src[..], hashTable[..];
    var ctx := new CStream(kind);
    dst[0] := LevelOf(kind);
    SparedFirst(old(dst[..]), dst[..], maxOut, n);
    var ip: nat, op: nat := 0, 1;
    parsed, c := [], Chain.Empty;
    UpToNothing(kind, s, n, table, maxOut > 0);
    assert dst[1..1] == [];
    while ip < n
      invariant ip <= n && 1 <= op <= dst.Length && ctx.kind == kind && fresh(ctx) && hashTable.Length == TableSize(kind)
      invariant maxOut > 0 ==> op <= maxOut
      invariant src[..] == s && dst[0] == LevelOf(kind)
      invariant UpTo(kind, s, n, table, maxOut > 0, c, parsed, dst[1..op], ip, hashTable[..])
      invariant Spared(old(dst[..]), dst[..], maxOut, CompressBound(n))
    {
      var inputPart := if BLOCK_SIZE < n - ip then BLOCK_SIZE else n - ip;
      PartOf(kind, s, n, table, maxOut > 0, c, parsed, dst[1..op], ip, hashTable[..]);
      var ok, next;
      ghost var b, streams;
      ghost var before, now := dst[..], hashTable[..];
      assert before[1..op] == dst[1..op];
      ok, next, b, streams := CompressBlock(ctx, src, ip, inputPart, hashTable, dst, op, maxOut);
      SparedStill(old(dst[..]), before, dst[..], maxOut, CompressBound(n), op);
      if !ok {
        UpToFailed(kind, s, n, table, maxOut > 0, c, parsed, before[1..op], ip, now, streams);
        return 0, c, parsed + [streams];
      }
      UpToNext(kind, s, n, table, maxOut > 0, c, parsed, ip, now, before, dst[..], op, next, b, streams);
      parsed, c := parsed + [streams], Chain(c, b);
      ip, op := ip + inputPart, next;
      assert dst[..][1..op] == dst[1..op];
    }
    r := op;
    UpToEnd(kind, s, n, table, maxOut > 0, c, parsed, dst[1..op], hashTable[..]);
    assert dst[..r] == [dst[0]] + dst[1..r];
  }

  lemma NothingParses(kind: Codewords, src: seq<byte>, n: nat, table: Table)
    requires n <= |src| && n <= MAX_INPUT_SIZE && |table| == TableSize(kind)
    ensures Parses(kind, [], src, n, table) && !SomePacks([], n) && Costs([], n) == 0
    ensures TableBefore(kind, src, n, table, 0) == table
  {
  }

  lemma TableNext(kind: Codewords, src: seq<byte>, n: nat, table: Table, k: nat)
    requires n <= |src| && n <= MAX_INPUT_SIZE && |table| == TableSize(kind) && BLOCK_SIZE * k < n
    ensures TableBefore(kind, src, n, table, k + 1)
         == ParseOf(kind, src, BLOCK_SIZE * k, BLOCK_SIZE * k + PartSize(n, k), TableBefore(kind, src, n, table, k)).table
  {
    hide ParseOf, PartSize;
  }

  lemma AllTaken(n: nat, blocks: nat)
    ensures Taken(n, blocks) == 1 + n + 4 * blocks
  {
  }

  lemma BoundAtLeast(n: nat)
    requires n <= MAX_INPUT_SIZE
    ensures Taken(0, 0) == 1 <= CompressBound(n)
  {
  }

  /** Compressing and decompressing gives the source back, into any buffer that can hold it. */
  method RoundTrip(kind: Codewords, src: array<byte>, n: nat, dst: array<byte>, maxOut: nat, hashTable: array<u32>,
                   back: array<byte>, cap: nat)
    returns (r: nat, m: int)
    requires src != dst && n <= src.Length && n <= MAX_INPUT_SIZE && hashTable.Length == TableSize(kind)
    requires 0 < maxOut < dst.Length && maxOut < 0x8000_0000
    requires back != src && back != dst && n <= cap <= back.Length
    modifies dst, hashTable, back
    ensures maxOut >= CompressBound(n) ==> r > 0
    ensures r > 0 ==> m == n && back[..n] == src[..n]
    ensures forall k :: cap <= k < back.Length ==> back[k] == old(back[k])
  {
    hide Holds, CompressBound, LevelOf, DecodeAll, TableSize;
    ghost var c, parsed;
    r, c, parsed := Compress(kind, src, n, dst, maxOut, hashTable);
    m := 0;
    if r > 0 {
      HeldDecodes(kind, c, dst[1..r], src[..], n, cap);
      assert src[..][..n] == src[..n];
      m := Decompress(dst, r, back, cap);
    }
  }

  lemma HeldDecodes(kind: Codewords, c: Chain, bytes: seq<byte>, s: seq<byte>, n: nat, cap: nat)
    requires Holds(kind, c, bytes, s, n) && n <= cap
    ensures DecodeAll([LevelOf(kind)] + bytes, cap) == Regenerated(s[..n])
  {
    ChainDecodes(LevelOf(kind), c, cap);
  }
}
