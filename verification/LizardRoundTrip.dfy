/** The decoders invert the codewords: whatever legal sequences were written, decoding
    the streams regenerates what they stand for. */
module LizardRoundTrip {
  import opened Bytes
  import opened LittleEndian
  import opened LzCopy
  import opened LizardCodes

  lemma Strip<T>(a: seq<T>, b: seq<T>)
    ensures (a + b)[|a|..] == b && (a + b)[..|a|] == a
  {
  }

  /** What was written beyond the token is read back, and nothing more. */
  lemma LengthInverts(n: nat, max: nat, rest: seq<byte>, room: nat)
    requires n < 0x100_0000 && 1 <= room <= 5 <= |rest|
    ensures ReadLength(Beyond(n, max) + rest, InToken(n, max), max, room) == Length(n, |Beyond(n, max)|)
  {
    hide WriteLE16, WriteLE24, ReadLE16, ReadLE24;
    var l := Beyond(n, max) + rest;
    if n >= max {
      var e := n - max;
      if e >= 0x1_0000 {
        assert l[1..] == WriteLE24(e) + rest;
        LE24RoundTrip(e, rest);
      } else if e >= 254 {
        assert l[1..] == WriteLE16(e) + rest;
        LE16RoundTrip(e, rest);
      }
    }
  }

  /** There is room for a wild copy behind `n` bytes. */
  predicate Room(n: nat, lim: Limits) {
    n + WILDCOPYLENGTH <= lim.oend && n + WILDCOPYLENGTH <= lim.end
  }

  lemma CopyFromCopies(rest: Streams, out: seq<byte>, last: nat, len: nat, lim: Limits)
    requires 8 <= last <= |out| && Room(|out| + len, lim)
    ensures CopyFrom(rest, out, last, len, lim) == Turn(rest, CopyMatch(out, last, len), last)
  {
  }

  // ----- LZ4 codewords -----

  lemma MatchLZ4Reads(w: seq<byte>, offset: nat, n: nat, s: Streams, rest: Streams, out: seq<byte>, lim: Limits)
    requires offset < MAX_16BIT_OFFSET && n < 0x100_0000 && w == WriteLE16(offset)
    requires s == rest.(literals := w + (Beyond(n, ML_MASK_LZ4) + rest.literals)) && offset <= |out| && |rest.literals| >= 5
    ensures MatchLZ4(s, out, InToken(n, ML_MASK_LZ4), lim) == CopyFrom(rest, out, offset, n + MINMATCH, lim)
  {
    hide Beyond, InToken, WriteLE16, ReadLE16, ReadLength, CopyFrom, MatchLZ4;
    var b := Beyond(n, ML_MASK_LZ4);
    LE16RoundTrip(offset, b + rest.literals);
    Strip(w, b + rest.literals);
    LengthInverts(n, ML_MASK_LZ4, rest.literals, 5);
    Strip(b, rest.literals);
    MatchLZ4Means(s, out, InToken(n, ML_MASK_LZ4), lim);
  }

  lemma MatchLZ4Inverts(i: Sequence, s: Streams, rest: Streams, out: seq<byte>, lim: Limits)
    requires MINMATCH <= i.len < 0x100_0000 && 8 <= i.offset < MAX_16BIT_OFFSET && i.offset <= |out|
    requires s == rest.(literals := WriteLE16(i.offset) + (Beyond(i.len - MINMATCH, ML_MASK_LZ4) + rest.literals))
    requires |rest.literals| >= WILDCOPYLENGTH && Room(|out| + i.len, lim)
    ensures MatchLZ4(s, out, InToken(i.len - MINMATCH, ML_MASK_LZ4), lim) == Turn(rest, CopyMatch(out, i.offset, i.len), i.offset)
  {
    hide Beyond, InToken, WriteLE16, CopyFrom, CopyMatch, MatchLZ4;
    MatchLZ4Reads(WriteLE16(i.offset), i.offset, i.len - MINMATCH, s, rest, out, lim);
    CopyFromCopies(rest, out, i.offset, i.len, lim);
  }

  lemma JoinLZ4(i: Sequence, rest: Streams)
    requires |i.literals| < 0x100_0000 && MINMATCH <= i.len < 0x100_0000 && i.offset < MAX_16BIT_OFFSET
    ensures var s := Join(CodedLZ4(i), rest);
            && s.flags != [] && s.flags[1..] == rest.flags
            && s.flags[0] as nat % 16 == InToken(|i.literals|, RUN_MASK_LZ4)
            && s.flags[0] as nat / 16 == InToken(i.len - MINMATCH, ML_MASK_LZ4)
            && s.literals == Beyond(|i.literals|, RUN_MASK_LZ4) + (i.literals + (WriteLE16(i.offset) + (Beyond(i.len - MINMATCH, ML_MASK_LZ4) + rest.literals)))
            && s.offset16 == rest.offset16 && s.offset24 == rest.offset24
  {
    hide Beyond, InToken, WriteLE16;
  }

  lemma TurnLZ4Inverts(i: Sequence, rest: Streams, out: seq<byte>, lim: Limits)
    requires |i.literals| < 0x100_0000 && MINMATCH <= i.len < 0x100_0000
    requires 8 <= i.offset < MAX_16BIT_OFFSET && i.offset <= |out| + |i.literals|
    requires |rest.literals| >= WILDCOPYLENGTH && Room(|out| + |i.literals| + i.len, lim)
    ensures Join(CodedLZ4(i), rest).flags != []
    ensures TurnLZ4(Join(CodedLZ4(i), rest), out, lim) == Turn(rest, CopyMatch(out + i.literals, i.offset, i.len), i.offset)
  {
    hide Beyond, InToken, WriteLE16, ReadLE16, ReadLength, MatchLZ4, Join, CodedLZ4, CopyMatch;
    JoinLZ4(i, rest);
    var s := Join(CodedLZ4(i), rest);
    var m := WriteLE16(i.offset) + (Beyond(i.len - MINMATCH, ML_MASK_LZ4) + rest.literals);
    var l1 := i.literals + m;
    LengthInverts(|i.literals|, RUN_MASK_LZ4, l1, 5);
    Strip(Beyond(|i.literals|, RUN_MASK_LZ4), l1);
    Strip(i.literals, m);
    MatchLZ4Inverts(i, rest.(literals := m), rest, out + i.literals, lim);
  }

  // ----- LIZv1 codewords -----

  lemma JoinShort(i: Sequence, rest: Streams)
    requires |i.literals| < 0x100_0000 && i.len < 0x100_0000 && i.offset < MAX_16BIT_OFFSET
    ensures var s := Join(CodedShort(i), rest);
            && s.flags != [] && s.flags[1..] == rest.flags
            && s.flags[0] == ShortToken(i)
            && s.literals == Beyond(|i.literals|, MAX_SHORT_LITLEN) + (i.literals + (Beyond(i.len, MAX_SHORT_MATCHLEN) + rest.literals))
            && s.offset16 == (if i.offset == 0 then [] else WriteLE16(i.offset)) + rest.offset16 && s.offset24 == rest.offset24
  {
    hide Beyond, InToken, WriteLE16;
  }

  /** A short token never looks like a long one: at least four bytes are copied, or the
      offset is the last one. */
  lemma ShortTokenTells(i: Sequence)
    requires i.offset == 0 || i.len >= MINMATCH
    ensures var token := ShortToken(i) as nat;
            && token >= 32 && (token < 128 <==> i.offset != 0)
            && token % 8 == InToken(|i.literals|, MAX_SHORT_LITLEN) && token / 8 % 16 == InToken(i.len, MAX_SHORT_MATCHLEN)
  {
  }

  lemma MatchShortInverts(i: Sequence, token: nat, s: Streams, rest: Streams, out: seq<byte>, last: nat, lim: Limits)
    requires i.len < 0x100_0000 && i.offset < MAX_16BIT_OFFSET
    requires (token < 128 <==> i.offset != 0) && token / 8 % 16 == InToken(i.len, MAX_SHORT_MATCHLEN)
    requires if i.len == 0 then Distance(i, last) <= |out| else 8 <= Distance(i, last) <= |out|
    requires s == rest.(literals := Beyond(i.len, MAX_SHORT_MATCHLEN) + rest.literals,
                        offset16 := (if i.offset == 0 then [] else WriteLE16(i.offset)) + rest.offset16)
    requires |rest.literals| >= WILDCOPYLENGTH && Room(|out| + i.len, lim)
    ensures MatchShort(s, token, out, last, lim) == Turn(rest, if i.len == 0 then out else CopyMatch(out, Distance(i, last), i.len), Distance(i, last))
  {
    hide Beyond, InToken, WriteLE16, ReadLE16, ReadLength, CopyMatch;
    if i.offset != 0 {
      LE16RoundTrip(i.offset, rest.offset16);
      Strip(WriteLE16(i.offset), rest.offset16);
    }
    LengthInverts(i.len, MAX_SHORT_MATCHLEN, rest.literals, 1);
    Strip(Beyond(i.len, MAX_SHORT_MATCHLEN), rest.literals);
  }

  lemma TurnShortInverts(i: Sequence, rest: Streams, out: seq<byte>, last: nat, lim: Limits)
    requires |i.literals| < 0x100_0000 && i.len < 0x100_0000 && i.offset < MAX_16BIT_OFFSET
    requires i.offset == 0 || i.len >= MINMATCH
    requires if i.len == 0 then Distance(i, last) <= |out| + |i.literals| else 8 <= Distance(i, last) <= |out| + |i.literals|
    requires |rest.literals| >= WILDCOPYLENGTH && Room(|out| + |i.literals| + i.len, lim)
    ensures Join(CodedShort(i), rest).flags != []
    ensures TurnLIZv1(Join(CodedShort(i), rest), out, last, lim)
            == Turn(rest, if i.len == 0 then out + i.literals else CopyMatch(out + i.literals, Distance(i, last), i.len), Distance(i, last))
  {
    hide Beyond, InToken, WriteLE16, ReadLE16, ReadLength, MatchShort, Join, CodedShort, CopyMatch, ShortToken, TurnLong;
    JoinShort(i, rest);
    ShortTokenTells(i);
    var s := Join(CodedShort(i), rest);
    var m := Beyond(i.len, MAX_SHORT_MATCHLEN) + rest.literals;
    var l1 := i.literals + m;
    LengthInverts(|i.literals|, MAX_SHORT_LITLEN, l1, 1);
    Strip(Beyond(|i.literals|, MAX_SHORT_LITLEN), l1);
    Strip(i.literals, m);
    MatchShortInverts(i, ShortToken(i), s.(flags := s.flags[1..], literals := m), rest, out + i.literals, last, lim);
  }

  lemma TurnLongInverts(offset: nat, len: nat, rest: Streams, out: seq<byte>, last: nat, lim: Limits)
    requires MM_LONGOFF <= len < 0x100_0000 && 8 <= offset < 0x100_0000 && offset <= |out|
    requires |rest.literals| >= WILDCOPYLENGTH && Room(|out| + len, lim)
    ensures Join(CodedLong(offset, len), rest).flags != []
    ensures TurnLIZv1(Join(CodedLong(offset, len), rest), out, last, lim) == Turn(rest, CopyMatch(out, offset, len), offset)
  {
    hide Beyond, WriteLE24, ReadLE24, ReadLength, CopyMatch, TurnShort, CopyFrom;
    var s := Join(CodedLong(offset, len), rest);
    LE24RoundTrip(offset, rest.offset24);
    Strip(WriteLE24(offset), rest.offset24);
    LengthInverts(len - MM_LONGOFF, LAST_LONG_OFF, rest.literals, 1);
    Strip(Beyond(len - MM_LONGOFF, LAST_LONG_OFF), rest.literals);
    var b := Beyond(len - MM_LONGOFF, LAST_LONG_OFF);
    assert s.literals == b + rest.literals && s.offset24 == WriteLE24(offset) + rest.offset24;
    assert s.flags[1..] == rest.flags && s.offset16 == rest.offset16;
    var t := s.(flags := rest.flags);
    assert t.(literals := t.literals[|b|..], offset24 := t.offset24[3..]) == rest;
    assert TurnLong(t, InToken(len - MM_LONGOFF, LAST_LONG_OFF), out, lim) == CopyFrom(rest, out, offset, len, lim);
    CopyFromCopies(rest, out, offset, len, lim);
  }

  // ----- One sequence, and all of them -----

  lemma RunTurn(kind: Codewords, s: Streams, out: seq<byte>, last: nat, lim: Limits, rest: Streams, out2: seq<byte>, last2: nat)
    requires s.flags != [] && TakeTurn(kind, s, out, last, lim) == Turn(rest, out2, last2)
    ensures Run(kind, s, out, last, lim) == Run(kind, rest, out2, last2, lim)
  {
    hide TakeTurn;
  }

  lemma SequenceDecodes(kind: Codewords, i: Sequence, rest: Streams, out: seq<byte>, last: nat, lim: Limits)
    requires LegalSequence(kind, i, |out|, last) && last <= |out|
    requires |rest.literals| >= WILDCOPYLENGTH && Room(|out| + |i.literals| + i.len, lim)
    ensures Run(kind, Join(Coded(kind, i, |out|, last), rest), out, last, lim) == Run(kind, rest, Apply(out, last, i), Distance(i, last), lim)
  {
    hide Join, CodedLZ4, CodedShort, CodedLong, CopyMatch, TurnLZ4, TurnLIZv1, Run;
    var d := Distance(i, last);
    var s := Join(Coded(kind, i, |out|, last), rest);
    if kind.LZ4? {
      TurnLZ4Inverts(i, rest, out, lim);
      RunTurn(kind, s, out, last, lim, rest, Apply(out, last, i), d);
    } else if i.offset < MAX_16BIT_OFFSET {
      TurnShortInverts(i, rest, out, last, lim);
      if i.len == 0 { NoCopy(out + i.literals, d); }
      RunTurn(kind, s, out, last, lim, rest, Apply(out, last, i), d);
    } else {
      LongDecodes(i, rest, out, last, lim);
    }
  }

  lemma NoCopy(out: seq<byte>, dist: nat)
    requires 1 <= dist <= |out|
    ensures CopyMatch(out, dist, 0) == out
  {
  }

  lemma LongDecodes(i: Sequence, rest: Streams, out: seq<byte>, last: nat, lim: Limits)
    requires LegalSequence(LIZv1, i, |out|, last) && last <= |out| && i.offset >= MAX_16BIT_OFFSET
    requires |rest.literals| >= WILDCOPYLENGTH && Room(|out| + |i.literals| + i.len, lim)
    ensures Run(LIZv1, Join(Coded(LIZv1, i, |out|, last), rest), out, last, lim) == Run(LIZv1, rest, Apply(out, last, i), i.offset, lim)
  {
    hide Join, CodedShort, CodedLong, CopyMatch, TurnLIZv1, Run;
    var long := Join(CodedLong(i.offset, i.len), rest);
    JoinAssoc(CodedLiterals(i.literals), CodedLong(i.offset, i.len), rest);
    var out1 := out + i.literals;
    if |i.literals| == 0 {
      JoinAssoc(long, Nothing, Nothing);
      assert out1 == out;
    } else {
      LongLiterals(i.offset, i.len, rest);
      TurnShortInverts(Sequence(i.literals, 0, 0), long, out, last, lim);
      RunTurn(LIZv1, Join(CodedLiterals(i.literals), long), out, last, lim, long, out1, last);
    }
    TurnLongInverts(i.offset, i.len, rest, out1, last, lim);
    RunTurn(LIZv1, long, out1, last, lim, rest, Apply(out, last, i), i.offset);
  }

  lemma LongLiterals(offset: nat, len: nat, rest: Streams)
    requires MM_LONGOFF <= len < 0x100_0000 && offset < 0x100_0000
    ensures |Join(CodedLong(offset, len), rest).literals| >= |rest.literals|
  {
  }

  lemma JoinLiterals(a: Streams, b: Streams)
    ensures |Join(a, b).literals| >= |b.literals|
  {
  }

  /** Any sequences in front of `rest`. */
  lemma {:induction false} ProgDecodes(kind: Codewords, p: Prog, rest: Streams, pre: seq<byte>, lim: Limits)
    requires Legal(kind, p, |pre|)
    requires p.Start? || (|rest.literals| >= WILDCOPYLENGTH && Room(|pre| + Size(p), lim))
    ensures Run(kind, Join(Written(kind, p, |pre|), rest), pre, 0, lim) == Run(kind, rest, Expand(kind, p, pre), Last(p), lim)
    decreases p
  {
    hide Join, Coded, Run, Apply, LegalSequence;
    match p
    case Start =>
      JoinAssoc(rest, Nothing, Nothing);
    case Then(q, i) =>
      var out, last := Expand(kind, q, pre), Last(q);
      var c := Coded(kind, i, |out|, last);
      JoinAssoc(Written(kind, q, |pre|), c, rest);
      JoinLiterals(c, rest);
      ProgDecodes(kind, q, Join(c, rest), pre, lim);
      LastReaches(kind, q, |pre|);
      SequenceDecodes(kind, i, rest, out, last, lim);
  }

  /** A block that was written decodes to what it stands for. */
  lemma BlockDecodes(kind: Codewords, p: Prog, tail: seq<byte>, pre: seq<byte>, lim: Limits)
    requires Legal(kind, p, |pre|)
    requires p.Start? || |tail| >= WILDCOPYLENGTH
    requires 1 <= Size(p) + |tail| && |pre| + Size(p) + |tail| <= lim.oend && |pre| + Size(p) + |tail| <= lim.end
    ensures Decode(kind, Block(kind, p, |pre|, tail), pre, lim) == Regenerated(Expand(kind, p, pre) + tail)
  {
    hide Join, Written, Expand, Legal;
    ProgDecodes(kind, p, Streams([], tail, [], []), pre, lim);
  }
}
