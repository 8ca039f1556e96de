/** The codewords of a Lizard block: sequences, the streams that hold them, and what
    the decoders make of any streams (lizard_compress_liz.h, lizard_compress_lz4.h,
    lizard_decompress_liz.h, lizard_decompress_lz4.h). */
module LizardCodes {
  import opened Bytes
  import opened LittleEndian
  import opened LzCopy

  const WILDCOPYLENGTH: nat := 16
  const MINMATCH: nat := 4
  const MAX_16BIT_OFFSET: nat := 0x1_0000
  const MM_LONGOFF: nat := 16
  const LAST_LONG_OFF: nat := 31
  const MAX_SHORT_LITLEN: nat := 7
  const MAX_SHORT_MATCHLEN: nat := 15
  const RUN_MASK_LZ4: nat := 15
  const ML_MASK_LZ4: nat := 15

  datatype Codewords = LZ4 | LIZv1

  /** The streams of a block; the fifth one, of lengths, is always empty. */
  datatype Streams = Streams(flags: seq<byte>, literals: seq<byte>, offset16: seq<byte>, offset24: seq<byte>)

  const Nothing: Streams := Streams([], [], [], [])

  function Join(a: Streams, b: Streams): Streams {
    Streams(a.flags + b.flags, a.literals + b.literals, a.offset16 + b.offset16, a.offset24 + b.offset24)
  }

  lemma JoinAssoc(a: Streams, b: Streams, c: Streams)
    ensures Join(Join(a, b), c) == Join(a, Join(b, c))
    ensures Join(Nothing, a) == a == Join(a, Nothing)
  {
    ConcatAssoc(a.flags, b.flags, c.flags);
    ConcatAssoc(a.literals, b.literals, c.literals);
    ConcatAssoc(a.offset16, b.offset16, c.offset16);
    ConcatAssoc(a.offset24, b.offset24, c.offset24);
  }

  // ----- Sequences -----

  /** Literals, and then `len` bytes from `offset` back, or from the last offset if it is 0. */
  datatype Sequence = Sequence(literals: seq<byte>, offset: nat, len: nat)

  function Distance(i: Sequence, last: nat): nat {
    if i.offset == 0 then last else i.offset
  }

  /** The sequences that can be written, after `size` bytes and with a last offset. */
  predicate LegalSequence(kind: Codewords, i: Sequence, size: nat, last: nat) {
    && |i.literals| < 0x100_0000 && i.len < 0x100_0000
    && 8 <= Distance(i, last) <= size + |i.literals|
    && if kind.LZ4? then 0 < i.offset < MAX_16BIT_OFFSET && MINMATCH <= i.len
       else if i.offset == 0 then true
       else if i.offset < MAX_16BIT_OFFSET then MINMATCH <= i.len
       else i.offset < 0x100_0000 && MM_LONGOFF <= i.len
  }

  /** The sequences of a block, in the order they were written. */
  datatype Prog = Start | Then(init: Prog, item: Sequence)

  function Last(p: Prog): nat {
    match p case Start => 0 case Then(q, i) => Distance(i, Last(q))
  }

  function Size(p: Prog): nat {
    match p case Start => 0 case Then(q, i) => Size(q) + |i.literals| + i.len
  }

  predicate Legal(kind: Codewords, p: Prog, base: nat) {
    match p case Start => true case Then(q, i) => Legal(kind, q, base) && LegalSequence(kind, i, base + Size(q), Last(q))
  }

  lemma LastReaches(kind: Codewords, p: Prog, base: nat)
    requires Legal(kind, p, base)
    ensures Last(p) <= base + Size(p)
  {
  }

  /** What a sequence does to the output. */
  function Apply(out: seq<byte>, last: nat, i: Sequence): (r: seq<byte>)
    requires 1 <= Distance(i, last) <= |out| + |i.literals|
    ensures |r| == |out| + |i.literals| + i.len
  {
    CopyMatch(out + i.literals, Distance(i, last), i.len)
  }

  /** What a block stands for, after the output `pre`. */
  function Expand(kind: Codewords, p: Prog, pre: seq<byte>): (r: seq<byte>)
    requires Legal(kind, p, |pre|)
    ensures |r| == |pre| + Size(p)
  {
    match p case Start => pre case Then(q, i) => Apply(Expand(kind, q, pre), Last(q), i)
  }

  // ----- How they are written -----

  /** What a length is over what fits the token: one byte, or 254 and two, or 255 and three. */
  function Ext(n: nat): seq<byte>
    requires n < 0x100_0000
  {
    if n >= 0x1_0000 then [255] + WriteLE24(n) else if n >= 254 then [254] + WriteLE16(n) else [n]
  }

  function InToken(n: nat, max: nat): (r: nat)
    ensures r <= n && r <= max
  {
    if n >= max then max else n
  }

  function Beyond(n: nat, max: nat): seq<byte>
    requires n < 0x100_0000
  {
    if n >= max then Ext(n - max) else []
  }

  /** [MMMM_LLLL] with the offset among the literals. */
  function CodedLZ4(i: Sequence): Streams
    requires |i.literals| < 0x100_0000 && MINMATCH <= i.len < 0x100_0000 && i.offset < MAX_16BIT_OFFSET
  {
    Streams([InToken(|i.literals|, RUN_MASK_LZ4) + 16 * InToken(i.len - MINMATCH, ML_MASK_LZ4)],
            Beyond(|i.literals|, RUN_MASK_LZ4) + i.literals + WriteLE16(i.offset) + Beyond(i.len - MINMATCH, ML_MASK_LZ4),
            [], [])
  }

  /** [0_MMMM_LLL] or, for the last offset, [1_MMMM_LLL]. */
  function ShortToken(i: Sequence): byte {
    InToken(|i.literals|, MAX_SHORT_LITLEN) + 8 * InToken(i.len, MAX_SHORT_MATCHLEN) + if i.offset == 0 then 128 else 0
  }

  function CodedShort(i: Sequence): Streams
    requires |i.literals| < 0x100_0000 && i.len < 0x100_0000 && i.offset < MAX_16BIT_OFFSET
  {
    Streams([ShortToken(i)],
            Beyond(|i.literals|, MAX_SHORT_LITLEN) + i.literals + Beyond(i.len, MAX_SHORT_MATCHLEN),
            if i.offset == 0 then [] else WriteLE16(i.offset),
            [])
  }

  /** The literals before a long offset go with a match of length 0. */
  function CodedLiterals(lits: seq<byte>): Streams
    requires |lits| < 0x100_0000
  {
    if |lits| == 0 then Nothing else CodedShort(Sequence(lits, 0, 0))
  }

  /** A token below 32, and an offset of 24 bits. */
  function CodedLong(offset: nat, len: nat): Streams
    requires MM_LONGOFF <= len < 0x100_0000 && offset < 0x100_0000
  {
    Streams([InToken(len - MM_LONGOFF, LAST_LONG_OFF)], Beyond(len - MM_LONGOFF, LAST_LONG_OFF), [], WriteLE24(offset))
  }

  function Coded(kind: Codewords, i: Sequence, size: nat, last: nat): Streams
    requires LegalSequence(kind, i, size, last)
  {
    if kind.LZ4? then CodedLZ4(i)
    else if i.offset < MAX_16BIT_OFFSET then CodedShort(i)
    else Join(CodedLiterals(i.literals), CodedLong(i.offset, i.len))
  }

  function Written(kind: Codewords, p: Prog, base: nat): Streams
    requires Legal(kind, p, base)
  {
    match p
    case Start => Nothing
    case Then(q, i) => Join(Written(kind, q, base), Coded(kind, i, base + Size(q), Last(q)))
  }

  /** A block that ends in literals. */
  function Block(kind: Codewords, p: Prog, base: nat, tail: seq<byte>): Streams
    requires Legal(kind, p, base)
  {
    Join(Written(kind, p, base), Streams([], tail, [], []))
  }

  // ----- What the decoders make of streams -----

  /** The outcome of a decoder: bytes, no bytes, an error; or nothing is known, as a wild
      copy may go past the end of a stream or of the output, or two regions of a block
      copy overlap. */
  datatype Result = Regenerated(bytes: seq<byte>) | Empty | Refused | Unknown

  datatype Length = Length(n: nat, used: nat) | NoLength(r: Result)

  /** A length of which `short` was in the token; `room` bytes must be left to read more. */
  function ReadLength(l: seq<byte>, short: nat, max: nat, room: nat): (r: Length)
    requires 1 <= room
    ensures if r.Length? then r.used <= |l| else r.r.Refused? || r.r.Unknown?
  {
    if short < max then Length(short, 0)
    else if |l| < room then NoLength(Refused)
    else if l[0] < 254 then Length(max + l[0] as int, 1)
    else if l[0] == 254 then
      if |l| < 3 then NoLength(Unknown) else Length(max + ReadLE16(l[1..]), 3)
    else
      if |l| < 4 then NoLength(Unknown) else Length(max + ReadLE24(l[1..]), 4)
  }

  /** How decoding goes on, or that it stops. */
  datatype Turn = Turn(rest: Streams, out: seq<byte>, last: nat) | Stop(r: Result)

  /** The limits of the output: `oend` is what the decoder checks, `end` is what there is. */
  datatype Limits = Limits(oend: int, end: nat)

  /** A match, which needs room for a wild copy. */
  function CopyFrom(rest: Streams, out: seq<byte>, last: nat, len: nat, lim: Limits): (t: Turn)
    ensures if t.Turn? then t.rest.flags == rest.flags && |t.out| >= |out| else t.r.Refused? || t.r.Unknown?
  {
    if last > |out| || |out| + len > lim.oend - WILDCOPYLENGTH then Stop(Refused)
    else if |out| + len + WILDCOPYLENGTH > lim.end || (len > 0 && last < 8) then Stop(Unknown)
    else if len == 0 then Turn(rest, out, last)
    else Turn(rest, CopyMatch(out, last, len), last)
  }

  function TurnLZ4(s: Streams, out: seq<byte>, lim: Limits): (t: Turn)
    requires s.flags != []
    ensures if t.Turn? then t.rest.flags == s.flags[1..] && |t.out| >= |out| else t.r.Refused? || t.r.Unknown?
  {
    var token := s.flags[0] as nat;
    var ll := ReadLength(s.literals, token % 16, RUN_MASK_LZ4, 5);
    if ll.NoLength? then Stop(ll.r) else
    var l1 := s.literals[ll.used..];
    if |out| + ll.n > lim.oend - WILDCOPYLENGTH || ll.n + 2 + WILDCOPYLENGTH > |l1| then Stop(Refused)
    else if |out| + ll.n + WILDCOPYLENGTH > lim.end then Stop(Unknown)
    else MatchLZ4(s.(flags := s.flags[1..], literals := l1[ll.n..]), out + l1[..ll.n], token / 16, lim)
  }

  /** The offset and the match of a sequence whose literals have been copied. */
  function MatchLZ4(s: Streams, out: seq<byte>, short: nat, lim: Limits): (t: Turn)
    requires |s.literals| >= 2
    ensures if t.Turn? then t.rest.flags == s.flags && |t.out| >= |out| else t.r.Refused? || t.r.Unknown?
  {
    var offset := ReadLE16(s.literals);
    if offset > |out| then Stop(Refused) else
    var l2 := s.literals[2..];
    var ml := ReadLength(l2, short, ML_MASK_LZ4, 5);
    if ml.NoLength? then Stop(ml.r) else
    CopyFrom(s.(literals := l2[ml.used..]), out, offset, ml.n + MINMATCH, lim)
  }

  lemma MatchLZ4Means(s: Streams, out: seq<byte>, short: nat, lim: Limits)
    requires |s.literals| >= 2
    ensures var offset, l2, t := ReadLE16(s.literals), s.literals[2..], MatchLZ4(s, out, short, lim);
            var ml := ReadLength(l2, short, ML_MASK_LZ4, 5);
            if offset > |out| then t == Stop(Refused)
            else if ml.NoLength? then t == Stop(ml.r)
            else t == CopyFrom(s.(literals := l2[ml.used..]), out, offset, ml.n + MINMATCH, lim)
  {
    hide ReadLength, ReadLE16, CopyFrom;
  }

  function TurnLIZv1(s: Streams, out: seq<byte>, last: nat, lim: Limits): (t: Turn)
    requires s.flags != []
    ensures if t.Turn? then t.rest.flags == s.flags[1..] && |t.out| >= |out| else t.r.Refused? || t.r.Unknown?
  {
    var token := s.flags[0] as nat;
    if token >= 32 then TurnShort(s.(flags := s.flags[1..]), token, out, last, lim)
    else TurnLong(s.(flags := s.flags[1..]), token, out, lim)
  }

  function TurnShort(s: Streams, token: nat, out: seq<byte>, last: nat, lim: Limits): (t: Turn)
    ensures if t.Turn? then t.rest.flags == s.flags && |t.out| >= |out| else t.r.Refused? || t.r.Unknown?
  {
    var ll := ReadLength(s.literals, token % 8, MAX_SHORT_LITLEN, 1);
    if ll.NoLength? then Stop(ll.r) else
    var l1 := s.literals[ll.used..];
    if |out| + ll.n > lim.oend - WILDCOPYLENGTH || WILDCOPYLENGTH > |l1| then Stop(Refused)
    else if ll.n + WILDCOPYLENGTH > |l1| || |out| + ll.n + WILDCOPYLENGTH > lim.end then Stop(Unknown)
    else MatchShort(s.(literals := l1[ll.n..]), token, out + l1[..ll.n], last, lim)
  }

  function MatchShort(s: Streams, token: nat, out: seq<byte>, last: nat, lim: Limits): (t: Turn)
    ensures if t.Turn? then t.rest.flags == s.flags && |t.out| >= |out| else t.r.Refused? || t.r.Unknown?
  {
    if token < 128 && |s.offset16| < 2 then Stop(Unknown) else
    var last2 := if token < 128 then ReadLE16(s.offset16) else last;
    var o16 := if token < 128 then s.offset16[2..] else s.offset16;
    var ml := ReadLength(s.literals, token / 8 % 16, MAX_SHORT_MATCHLEN, 1);
    if ml.NoLength? then Stop(ml.r) else
    CopyFrom(s.(literals := s.literals[ml.used..], offset16 := o16), out, last2, ml.n, lim)
  }

  function TurnLong(s: Streams, token: nat, out: seq<byte>, lim: Limits): (t: Turn)
    ensures if t.Turn? then t.rest.flags == s.flags && |t.out| >= |out| else t.r.Refused? || t.r.Unknown?
  {
    var ml := ReadLength(s.literals, token, LAST_LONG_OFF, 1);
    if ml.NoLength? then Stop(ml.r)
    else if |s.offset24| < 3 then Stop(Refused)
    else CopyFrom(s.(literals := s.literals[ml.used..], offset24 := s.offset24[3..]),
                  out, ReadLE24(s.offset24), ml.n + MM_LONGOFF, lim)
  }

  function TakeTurn(kind: Codewords, s: Streams, out: seq<byte>, last: nat, lim: Limits): (t: Turn)
    requires s.flags != []
    ensures if t.Turn? then t.rest.flags == s.flags[1..] && |t.out| >= |out| else t.r.Refused? || t.r.Unknown?
  {
    if kind.LZ4? then TurnLZ4(s, out, lim) else TurnLIZv1(s, out, last, lim)
  }

  /** What is left of the literals ends the block. */
  function Tail(lits: seq<byte>, out: seq<byte>, lim: Limits): Result {
    if |out| + |lits| > lim.oend then Refused
    else if |out| + |lits| > lim.end then Unknown
    else Regenerated(out + lits)
  }

  /** As many turns as there are tokens. */
  function Run(kind: Codewords, s: Streams, out: seq<byte>, last: nat, lim: Limits): (r: Result)
    ensures !r.Empty?
    decreases |s.flags|
  {
    if s.flags == [] then Tail(s.literals, out, lim) else
    var t := TakeTurn(kind, s, out, last, lim);
    if t.Stop? then t.r
    else Run(kind, t.rest, t.out, t.last, lim)
  }

  /** A block is decoded behind the output `out`. */
  function Decode(kind: Codewords, s: Streams, out: seq<byte>, lim: Limits): Result {
    if lim.oend == |out| then (if s.flags == [0] then Empty else Refused)
    else Run(kind, s, out, 0, lim)
  }
}
