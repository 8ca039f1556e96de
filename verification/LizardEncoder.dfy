/** Lizard_encodeSequence_LZ4 and Lizard_encodeSequence_LIZv1 (lizard_compress_lz4.h:3-86,
    lizard_compress_liz.h:43-179): a sequence goes to the streams of a block. */
module LizardEncoder {
  import opened Bytes
  import opened LittleEndian
  import opened LizardCodes

  /** Lizard_stream_t: the streams of the block being compressed, which grow as needed.
      `prog` is what has been written to them, behind `base` bytes of earlier blocks. */
  class CStream {
    const kind: Codewords
    var flags: seq<byte>
    var literals: seq<byte>
    var offset16: seq<byte>
    var offset24: seq<byte>
    var lastOff: nat
    ghost var prog: Prog
    ghost var base: nat

    constructor (kind: Codewords)
      ensures Valid() && this.kind == kind && prog == Start && base == 0
    {
      this.kind := kind;
      flags, literals, offset16, offset24 := [], [], [], [];
      lastOff, prog, base := 0, Start, 0;
    }

    ghost function View(): Streams
      reads this
    {
      Streams(flags, literals, offset16, offset24)
    }

    ghost predicate Valid()
      reads this
    {
      && Legal(kind, prog, base)
      && View() == Written(kind, prog, base)
      && (kind.LIZv1? ==> lastOff == Last(prog))
    }

    /** Lizard_initBlock. */
    method InitBlock(ghost start: nat)
      modifies this
      ensures Valid() && prog == Start && base == start
    {
      flags, literals, offset16, offset24 := [], [], [], [];
      lastOff, prog, base := 0, Start, start;
    }

    /** What of a length does not fit the token. */
    method PutExt(len: nat)
      requires len < 0x100_0000
      modifies this`literals
      ensures literals == old(literals) + Ext(len)
    {
      if len >= 0x1_0000 {
        literals := literals + ([255] + WriteLE24(len));
      } else if len >= 254 {
        literals := literals + ([254] + WriteLE16(len));
      } else {
        literals := literals + [len];
      }
    }

    /** The length of the literals, in a fresh token and behind it. */
    method PutLiteralLength(length: nat, max: nat) returns (token: nat)
      requires length < 0x100_0000 && max < 16
      modifies this`flags, this`literals
      ensures token == |old(flags)| && flags == old(flags) + [InToken(length, max)]
      ensures literals == old(literals) + Beyond(length, max)
    {
      token := |flags|;
      flags := flags + [0];
      if length >= max {
        flags := flags[token := max];
        PutExt(length - max);
      } else {
        flags := flags[token := length];
      }
    }

    /** The length of a match goes to the upper bits of the token. */
    method PutMatchLength(token: nat, length: nat, max: nat, unit: nat)
      requires token < |flags| && length < 0x100_0000
      requires max == 15 && (unit == 8 || unit == 16) && flags[token] + 15 * unit < 256
      modifies this`flags, this`literals
      ensures flags == old(flags)[token := old(flags)[token] + unit * InToken(length, max)]
      ensures literals == old(literals) + Beyond(length, max)
    {
      if length >= max {
        flags := flags[token := flags[token] + unit * 15];
        PutExt(length - max);
      } else {
        flags := flags[token := flags[token] + unit * length];
      }
    }

    method EncodeSequenceLZ4(src: array<byte>, ip: nat, anchor: nat, matchLength: nat, match_: nat)
      returns (ip': nat, anchor': nat)
      requires Valid() && kind == LZ4 && anchor <= ip <= src.Length && match_ <= ip
      requires LegalSequence(LZ4, Sequence(src[anchor..ip], ip - match_, matchLength), base + Size(prog), Last(prog))
      modifies this
      ensures Valid() && prog == Then(old(prog), Sequence(old(src[anchor..ip]), ip - match_, matchLength)) && base == old(base)
      ensures ip' == anchor' == ip + matchLength
    {
      hide Written, Legal, Beyond, InToken, WriteLE16;
      ghost var w, i := View(), Sequence(src[anchor..ip], ip - match_, matchLength);
      var token := PutLiteralLength(ip - anchor, RUN_MASK_LZ4);
      if ip - anchor > 0 {
        literals := literals + src[anchor..ip];
      }
      literals := literals + WriteLE16(ip - match_);
      PutMatchLength(token, matchLength - MINMATCH, ML_MASK_LZ4, 16);
      prog := Then(prog, i);
      Appended(old(literals), Beyond(ip - anchor, RUN_MASK_LZ4), i.literals, WriteLE16(ip - match_), Beyond(matchLength - MINMATCH, ML_MASK_LZ4));
      assert View() == Join(w, CodedLZ4(i));
      WrittenThen(kind, old(prog), i, base);
      ip', anchor' := ip + matchLength, ip + matchLength;
    }

    method EncodeSequenceLIZv1(src: array<byte>, ip: nat, anchor: nat, matchLength: nat, match_: nat)
      returns (ip': nat, anchor': nat)
      requires Valid() && kind == LIZv1 && anchor <= ip <= src.Length && match_ <= ip
      requires LegalSequence(LIZv1, Sequence(src[anchor..ip], ip - match_, matchLength), base + Size(prog), Last(prog))
      modifies this
      ensures Valid() && prog == Then(old(prog), Sequence(old(src[anchor..ip]), ip - match_, matchLength)) && base == old(base)
      ensures ip' == anchor' == ip + matchLength
    {
      hide Written, Legal, Beyond, InToken, WriteLE16;
      var offset, length := ip - match_, ip - anchor;
      ghost var w, i := View(), Sequence(src[anchor..ip], offset, matchLength);
      if offset >= MAX_16BIT_OFFSET {
        if length > 0 {
          PutLongLiterals(src, ip, anchor);
        }
        PutLong(offset, matchLength);
        JoinAssoc(w, Nothing, Nothing);
        JoinAssoc(w, CodedLiterals(i.literals), CodedLong(offset, matchLength));
      } else {
        PutShort(src, ip, anchor, offset, matchLength);
      }
      prog := Then(prog, i);
      WrittenThen(kind, old(prog), i, base);
      ip', anchor' := ip + matchLength, ip + matchLength;
    }

    /** Literals before a long offset: their token says "last offset", and no match. */
    method PutLongLiterals(src: array<byte>, ip: nat, anchor: nat)
      requires anchor < ip <= src.Length && ip - anchor < 0x100_0000
      modifies this`flags, this`literals
      ensures View() == Join(old(View()), CodedLiterals(old(src[anchor..ip])))
    {
      hide Beyond, Ext;
      var token := PutLiteralLength(ip - anchor, MAX_SHORT_LITLEN);
      literals := literals + src[anchor..ip];
      flags := flags[token := flags[token] + 128];
      assert Beyond(0, MAX_SHORT_MATCHLEN) == [] by { NothingBeyond(); }
    }

    method PutLong(offset: nat, matchLength: nat)
      requires MM_LONGOFF <= matchLength < 0x100_0000 && offset < 0x100_0000
      modifies this`flags, this`literals, this`offset24, this`lastOff
      ensures View() == Join(old(View()), CodedLong(offset, matchLength)) && lastOff == offset
    {
      hide Ext, WriteLE24;
      if matchLength - MM_LONGOFF >= LAST_LONG_OFF {
        flags := flags + [LAST_LONG_OFF];
        PutExt(matchLength - MM_LONGOFF - LAST_LONG_OFF);
      } else {
        flags := flags + [matchLength - MM_LONGOFF];
      }
      offset24 := offset24 + WriteLE24(offset);
      lastOff := offset;
    }

    method PutShort(src: array<byte>, ip: nat, anchor: nat, offset: nat, matchLength: nat)
      requires anchor <= ip <= src.Length && ip - anchor < 0x100_0000 && matchLength < 0x100_0000 && offset < MAX_16BIT_OFFSET
      modifies this`flags, this`literals, this`offset16, this`lastOff
      ensures View() == Join(old(View()), CodedShort(Sequence(old(src[anchor..ip]), offset, matchLength)))
      ensures lastOff == if offset == 0 then old(lastOff) else offset
    {
      hide Beyond, WriteLE16;
      var token := PutLiteralLength(ip - anchor, MAX_SHORT_LITLEN);
      literals := literals + src[anchor..ip];
      if offset == 0 {
        flags := flags[token := flags[token] + 128];
      } else {
        lastOff := offset;
        offset16 := offset16 + WriteLE16(lastOff);
      }
      PutMatchLength(token, matchLength, MAX_SHORT_MATCHLEN, 8);
    }

    /** Lizard_encodeLastLiterals: the same for both kinds of codewords. */
    method EncodeLastLiterals(src: array<byte>, ip: nat, anchor: nat)
      requires Valid() && anchor <= ip <= src.Length
      modifies this`literals
      ensures View() == Block(kind, prog, base, src[anchor..ip])
    {
      literals := literals + src[anchor..ip];
    }
  }

  lemma NothingBeyond()
    ensures Beyond(0, MAX_SHORT_MATCHLEN) == []
  {
  }

  lemma Appended(l: seq<byte>, a: seq<byte>, b: seq<byte>, c: seq<byte>, d: seq<byte>)
    ensures l + a + b + c + d == l + (a + b + c + d)
    ensures b == [] ==> l + a + c + d == l + (a + b + c + d)
  {
  }

  lemma WrittenThen(kind: Codewords, p: Prog, i: Sequence, base: nat)
    requires Legal(kind, p, base) && LegalSequence(kind, i, base + Size(p), Last(p))
    ensures Legal(kind, Then(p, i), base)
    ensures Written(kind, Then(p, i), base) == Join(Written(kind, p, base), Coded(kind, i, base + Size(p), Last(p)))
  {
  }
}
