/** Lizard_decompress_LZ4 and Lizard_decompress_LIZv1, with the wild copies of 8 and 16
    bytes (lizard_decompress_lz4.h:7-163, lizard_decompress_liz.h:14-220). */
module LizardDecoder {
  import opened Bytes
  import opened LittleEndian
  import opened LzCopy
  import opened LizardCodes

  // ----- Wild copies -----

  /** Lizard_copy8: eight bytes are read, then written. */
  method Copy8(dst: array<byte>, d: nat, src: array<byte>, s: nat)
    requires d + 8 <= dst.Length && s + 8 <= src.Length
    modifies dst
    ensures forall k :: 0 <= k < dst.Length ==> dst[k] == if d <= k < d + 8 then old(src[s + (k - d)]) else old(dst[k])
  {
    forall k | d <= k < d + 8 {
      dst[k] := src[s + (k - d)];
    }
  }

  /** Where the wild copies below go: from another array, or from at least 8 bytes behind. */
  predicate Apart(dst: array<byte>, d: nat, src: array<byte>, s: nat, e: nat) {
    && d <= e && e + WILDCOPYLENGTH <= dst.Length
    && if dst == src then s + 8 <= d else s + (e - d) + WILDCOPYLENGTH <= src.Length
  }

  /** Sixteen bytes, of which the second eight may depend on the first eight. */
  method Copy16(dst: array<byte>, d: nat, src: array<byte>, s: nat)
    requires d + 16 <= dst.Length && s + 16 <= src.Length
    requires dst == src ==> s + 8 <= d
    modifies dst
    ensures forall k :: d <= k < d + 16 ==> dst[k] == src[s + (k - d)]
    ensures forall k :: 0 <= k < d || d + 16 <= k < dst.Length ==> dst[k] == old(dst[k])
  {
    Copy8(dst, d, src, s);
    Copy8(dst, d + 8, src, s + 8);
  }

  /** Lizard_wildCopy16: up to 16 bytes more than asked for. */
  method WildCopy16(dst: array<byte>, d: nat, src: array<byte>, s: nat, e: nat)
    requires Apart(dst, d, src, s, e)
    modifies dst
    ensures dst[d..e] == src[s..s + (e - d)]
    ensures forall k :: 0 <= k < d || e + WILDCOPYLENGTH <= k < dst.Length ==> dst[k] == old(dst[k])
  {
    Copy16(dst, d, src, s);
    var at := 16;
    while d + at < e
      invariant 16 <= at && (d + at < e + 16 || at == 16)
      invariant forall k :: d <= k < d + at ==> dst[k] == src[s + (k - d)]
      invariant forall k :: 0 <= k < d || e + WILDCOPYLENGTH <= k < dst.Length ==> dst[k] == old(dst[k])
    {
      Copy16(dst, d + at, src, s + at);
      at := at + 16;
    }
    forall k | 0 <= k < e - d
      ensures dst[d..e][k] == src[s..s + (e - d)][k]
    {
      assert dst[d + k] == src[s + ((d + k) - d)];
    }
  }

  /** The first sixteen bytes of a match; from closer than 8 bytes nothing is known of them. */
  method CopyAhead(a: array<byte>, op: nat, dist: nat)
    requires dist <= op && op + 16 <= a.Length
    modifies a
    ensures 8 <= dist ==> forall k :: op <= k < op + 16 ==> a[k] == a[k - dist]
    ensures forall k :: 0 <= k < op || op + 16 <= k < a.Length ==> a[k] == old(a[k])
  {
    Copy8(a, op, a, op - dist);
    Copy8(a, op + 8, a, op - dist + 8);
  }

  /** The others. */
  method CopyRest(a: array<byte>, at: nat, dist: nat, end: nat)
    requires 8 <= dist <= at <= end && end + WILDCOPYLENGTH <= a.Length
    modifies a
    ensures forall k :: at <= k < end ==> a[k] == a[k - dist]
    ensures forall k :: 0 <= k < at || end + WILDCOPYLENGTH <= k < a.Length ==> a[k] == old(a[k])
  {
    WildCopy16(a, at, a, at - dist, end);
    forall k | at <= k < end
      ensures a[k] == a[k - dist]
    {
      assert a[k] == a[at..end][k - at] == a[at - dist..at - dist + (end - at)][k - at];
    }
  }

  /** A match of any length, from at least 8 bytes behind: the overlapping copy. */
  method WildMatch(a: array<byte>, op: nat, dist: nat, len: nat)
    requires dist <= op && op + len + WILDCOPYLENGTH <= a.Length && (len == 0 || 8 <= dist)
    modifies a
    ensures a[..op + len] == if len == 0 then old(a[..op]) else CopyMatch(old(a[..op]), dist, len)
    ensures forall k :: op + len + WILDCOPYLENGTH <= k < a.Length ==> a[k] == old(a[k])
  {
    hide CopyMatch;
    ghost var was := a[..op];
    CopyAhead(a, op, dist);
    assert a[..op] == was;
    if len > 16 {
      CopyRest(a, op + 16, dist, op + len);
      assert a[..op] == was;
    }
    if len > 0 {
      IsMatch(was, a[..op + len], dist);
    }
  }

  lemma IsMatch(out: seq<byte>, r: seq<byte>, dist: nat)
    requires 1 <= dist <= |out| <= |r| && r[..|out|] == out
    requires forall k :: |out| <= k < |r| ==> r[k] == r[k - dist]
    ensures r == CopyMatch(out, dist, |r| - |out|)
  {
    RepeatsIsCopyMatch(out, r, dist);
  }

  // ----- Streams in memory -----

  /** Lizard_dstream_t: where in the compressed block the streams are. */
  class DStream {
    const src: array<byte>
    var flagsPtr: nat
    var flagsEnd: nat
    var literalsPtr: nat
    var literalsEnd: nat
    var offset16Ptr: nat
    var offset16End: nat
    var offset24Ptr: nat
    var offset24End: nat
    var lastOff: nat

    constructor (src: array<byte>, flags: (nat, nat), literals: (nat, nat), offset16: (nat, nat), offset24: (nat, nat))
      requires flags.0 <= flags.1 <= src.Length && literals.0 <= literals.1 <= src.Length
      requires offset16.0 <= offset16.1 <= src.Length - 2 && offset24.0 <= offset24.1 <= src.Length
      ensures Valid() && this.src == src && lastOff == 0
      ensures View() == Streams(src[flags.0..flags.1], src[literals.0..literals.1], src[offset16.0..offset16.1], src[offset24.0..offset24.1])
    {
      this.src := src;
      flagsPtr, flagsEnd := flags.0, flags.1;
      literalsPtr, literalsEnd := literals.0, literals.1;
      offset16Ptr, offset16End := offset16.0, offset16.1;
      offset24Ptr, offset24End := offset24.0, offset24.1;
      lastOff := 0;
    }

    /** The streams lie in the block; an offset of 16 bits can be read even behind the last. */
    ghost predicate Valid()
      reads this
    {
      && flagsPtr <= flagsEnd <= src.Length && literalsPtr <= literalsEnd <= src.Length
      && offset16Ptr <= offset16End <= src.Length - 2 && offset24Ptr <= offset24End <= src.Length
    }

    ghost function View(): Streams
      requires Valid()
      reads this, src
    {
      Streams(src[flagsPtr..flagsEnd], src[literalsPtr..literalsEnd], src[offset16Ptr..offset16End], src[offset24Ptr..offset24End])
    }

    /** A length, and how many of the literals it goes on in. */
    method PeekLength(short: nat, max: nat, room: nat) returns (ok: bool, n: nat, used: nat)
      requires Valid() && 1 <= room && ReadLength(View().literals, short, max, room) != NoLength(Unknown)
      ensures match ReadLength(View().literals, short, max, room)
              case NoLength(r) => !ok && r == Refused
              case Length(m, k) => ok && n == m && used == k <= |View().literals|
    {
      ghost var l := View().literals;
      ok, n, used := true, short, 0;
      if short >= max {
        if literalsPtr as int > literalsEnd - room {
          return false, 0, 0;
        }
        n, used := src[literalsPtr], 1;
        assert l[0] == src[literalsPtr];
        if n == 254 {
          assert l[1..][0] == src[literalsPtr + 1] && l[1..][1] == src[literalsPtr + 2];
          n, used := src[literalsPtr + 1] as nat + 0x100 * src[literalsPtr + 2] as nat, 3;
        } else if n == 255 {
          assert l[1..][0] == src[literalsPtr + 1] && l[1..][1] == src[literalsPtr + 2] && l[1..][2] == src[literalsPtr + 3];
          n, used := src[literalsPtr + 1] as nat + 0x100 * src[literalsPtr + 2] as nat + 0x1_0000 * src[literalsPtr + 3] as nat, 4;
        }
        n := n + max;
      }
    }

    /** A length that goes on in the literals. */
    method NextLength(short: nat, max: nat, room: nat) returns (ok: bool, n: nat)
      requires Valid() && 1 <= room && ReadLength(View().literals, short, max, room) != NoLength(Unknown)
      modifies this`literalsPtr
      ensures Valid()
      ensures var was := old(View());
              match ReadLength(was.literals, short, max, room)
              case NoLength(r) => !ok && r == Refused
              case Length(m, used) => ok && n == m && View() == was.(literals := was.literals[used..])
    {
      hide ReadLength;
      var used;
      ok, n, used := PeekLength(short, max, room);
      if ok {
        literalsPtr := literalsPtr + used;
      }
    }

    /** Literals, copied wildly. */
    method CopyLiterals(n: nat, dest: array<byte>, op: nat, ghost end: nat)
      requires Valid() && dest != src && n + WILDCOPYLENGTH <= |View().literals|
      requires op + n + WILDCOPYLENGTH <= end <= dest.Length
      modifies dest
      ensures View() == old(View()) && dest[..op + n] == old(dest[..op]) + View().literals[..n]
      ensures forall k :: end <= k < dest.Length ==> dest[k] == old(dest[k])
    {
      WildCopy16(dest, op, src, literalsPtr, op + n);
      assert View().literals[..n] == src[literalsPtr..literalsPtr + n];
      assert dest[..op + n] == dest[..op] + dest[op..op + n];
    }

    method TakeLiterals(n: nat, dest: array<byte>, op: nat, ghost end: nat)
      requires Valid() && dest != src && n + WILDCOPYLENGTH <= |View().literals|
      requires op + n + WILDCOPYLENGTH <= end <= dest.Length
      modifies this`literalsPtr, dest
      ensures Valid()
      ensures var was := old(View());
              dest[..op + n] == old(dest[..op]) + was.literals[..n] && View() == was.(literals := was.literals[n..])
      ensures forall k :: end <= k < dest.Length ==> dest[k] == old(dest[k])
    {
      CopyLiterals(n, dest, op, end);
      literalsPtr := literalsPtr + n;
    }

    /** A match, if the output has room for it and reaches back far enough. */
    method TakeMatch(len: nat, dest: array<byte>, at: nat, lim: Limits) returns (ok: bool, op: nat)
      requires Valid() && dest != src && at <= lim.end <= dest.Length
      requires CopyFrom(View(), dest[..at], lastOff, len, lim) != Stop(Unknown)
      modifies dest
      ensures Valid() && View() == old(View())
      ensures var t := CopyFrom(old(View()), old(dest[..at]), lastOff, len, lim);
              if ok then op <= lim.end && t == Turn(View(), dest[..op], lastOff) else t == Stop(Refused)
      ensures forall k :: lim.end <= k < dest.Length ==> dest[k] == old(dest[k])
    {
      hide CopyMatch;
      op := at;
      if lastOff > op || op + len > lim.oend - WILDCOPYLENGTH {
        return false, op;
      }
      WildMatch(dest, op, lastOff, len);
      ok, op := true, op + len;
    }

    method NextToken() returns (token: byte)
      requires Valid() && View().flags != []
      modifies this`flagsPtr
      ensures Valid() && token == old(View()).flags[0] && View() == old(View()).(flags := old(View()).flags[1..])
    {
      token := src[flagsPtr];
      flagsPtr := flagsPtr + 1;
    }

    /** An offset among the literals. */
    method InlineOffset()
      requires Valid() && |View().literals| >= 2
      modifies this`literalsPtr, this`lastOff
      ensures Valid() && View() == old(View()).(literals := old(View()).literals[2..]) && lastOff == ReadLE16(old(View()).literals)
    {
      ghost var l := View().literals;
      lastOff := src[literalsPtr] as nat + 0x100 * src[literalsPtr + 1] as nat;
      assert l[0] == src[literalsPtr] && l[1] == src[literalsPtr + 1];
      literalsPtr := literalsPtr + 2;
    }

    /** The next offset of 16 bits is read in any case, and dropped if the last one is meant. */
    method NextOffset16(repeat: bool)
      requires Valid() && (repeat || |View().offset16| >= 2)
      modifies this`offset16Ptr, this`lastOff
      ensures Valid()
      ensures var was := old(View());
              if repeat then View() == was && lastOff == old(lastOff)
              else View() == was.(offset16 := was.offset16[2..]) && lastOff == ReadLE16(was.offset16)
    {
      ghost var o := View().offset16;
      var newOff := src[offset16Ptr] as nat + 0x100 * src[offset16Ptr + 1] as nat;
      if !repeat {
        assert o[0] == src[offset16Ptr] && o[1] == src[offset16Ptr + 1];
        lastOff := newOff;
        offset16Ptr := offset16Ptr + 2;
      }
    }

    method NextOffset24()
      requires Valid() && |View().offset24| >= 3
      modifies this`offset24Ptr, this`lastOff
      ensures Valid() && View() == old(View()).(offset24 := old(View()).offset24[3..]) && lastOff == ReadLE24(old(View()).offset24)
    {
      ghost var o := View().offset24;
      lastOff := src[offset24Ptr] as nat + 0x100 * src[offset24Ptr + 1] as nat + 0x1_0000 * src[offset24Ptr + 2] as nat;
      assert o[0] == src[offset24Ptr] && o[1] == src[offset24Ptr + 1] && o[2] == src[offset24Ptr + 2];
      offset24Ptr := offset24Ptr + 3;
    }

    function LiteralsLeft(): (n: nat)
      requires Valid()
      reads this, src
      ensures n == |View().literals|
    {
      literalsEnd - literalsPtr
    }

    function Offset24Left(): (n: nat)
      requires Valid()
      reads this, src
      ensures n == |View().offset24|
    {
      offset24End - offset24Ptr
    }

    /** One turn of the loop over LZ4 codewords, whose token has been read. */
    method TurnLZ4(token: byte, dest: array<byte>, at: nat, lim: Limits, ghost s: Streams) returns (ok: bool, op: nat)
      requires Valid() && dest != src && at <= lim.end <= dest.Length
      requires s.flags != [] && s.flags[0] == token && View() == s.(flags := s.flags[1..])
      requires LizardCodes.TurnLZ4(s, dest[..at], lim) != Stop(Unknown)
      modifies this`literalsPtr, this`lastOff, dest
      ensures Valid()
      ensures var t := LizardCodes.TurnLZ4(s, old(dest[..at]), lim);
              if ok then op <= lim.end && t == Turn(View(), dest[..op], lastOff) else t == Stop(Refused)
      ensures forall k :: lim.end <= k < dest.Length ==> dest[k] == old(dest[k])
    {
      hide ReadLength, LizardCodes.MatchLZ4, Valid, View, LiteralsLeft;
      op := at;
      var length;
      ok, length := NextLength(token % 16, RUN_MASK_LZ4, 5);
      if !ok { return; }
      if op + length > lim.oend - WILDCOPYLENGTH || length > LiteralsLeft() - (2 + WILDCOPYLENGTH) {
        return false, op;
      }
      TakeLiterals(length, dest, op, lim.end);
      op := op + length;
      ok, op := MatchLZ4(token / 16, dest, op, lim);
    }

    method MatchLZ4(short: nat, dest: array<byte>, at: nat, lim: Limits) returns (ok: bool, op: nat)
      requires Valid() && dest != src && at <= lim.end <= dest.Length && |View().literals| >= 2
      requires LizardCodes.MatchLZ4(View(), dest[..at], short, lim) != Stop(Unknown)
      modifies this`literalsPtr, this`lastOff, dest
      ensures Valid()
      ensures var t := LizardCodes.MatchLZ4(old(View()), old(dest[..at]), short, lim);
              if ok then op <= lim.end && t == Turn(View(), dest[..op], lastOff) else t == Stop(Refused)
      ensures forall k :: lim.end <= k < dest.Length ==> dest[k] == old(dest[k])
    {
      hide ReadLength, ReadLE16, CopyFrom, Valid, View, LizardCodes.MatchLZ4;
      MatchLZ4Means(View(), dest[..at], short, lim);
      InlineOffset();
      op := at;
      if lastOff > op {
        return false, op;
      }
      var length;
      ok, length := NextLength(short, ML_MASK_LZ4, 5);
      if !ok { return; }
      ok, op := TakeMatch(length + MINMATCH, dest, op, lim);
    }

    /** A token of 32 and more: literals, then a match at a 16-bit offset or at the last one. */
    method TurnShort(token: byte, dest: array<byte>, at: nat, lim: Limits) returns (ok: bool, op: nat)
      requires Valid() && dest != src && at <= lim.end <= dest.Length
      requires LizardCodes.TurnShort(View(), token, dest[..at], lastOff, lim) != Stop(Unknown)
      modifies this`literalsPtr, this`offset16Ptr, this`lastOff, dest
      ensures Valid()
      ensures var t := LizardCodes.TurnShort(old(View()), token, old(dest[..at]), old(lastOff), lim);
              if ok then op <= lim.end && t == Turn(View(), dest[..op], lastOff) else t == Stop(Refused)
      ensures forall k :: lim.end <= k < dest.Length ==> dest[k] == old(dest[k])
    {
      hide ReadLength, LizardCodes.MatchShort, Valid, View, LiteralsLeft;
      op := at;
      var length;
      ok, length := NextLength(token % 8, MAX_SHORT_LITLEN, 1);
      if !ok { return; }
      if op + length > lim.oend - WILDCOPYLENGTH || LiteralsLeft() < WILDCOPYLENGTH {
        return false, op;
      }
      TakeLiterals(length, dest, op, lim.end);
      op := op + length;
      ok, op := MatchShort(token, dest, op, lim);
    }

    method MatchShort(token: byte, dest: array<byte>, at: nat, lim: Limits) returns (ok: bool, op: nat)
      requires Valid() && dest != src && at <= lim.end <= dest.Length
      requires LizardCodes.MatchShort(View(), token, dest[..at], lastOff, lim) != Stop(Unknown)
      modifies this`literalsPtr, this`offset16Ptr, this`lastOff, dest
      ensures Valid()
      ensures var t := LizardCodes.MatchShort(old(View()), token, old(dest[..at]), old(lastOff), lim);
              if ok then op <= lim.end && t == Turn(View(), dest[..op], lastOff) else t == Stop(Refused)
      ensures forall k :: lim.end <= k < dest.Length ==> dest[k] == old(dest[k])
    {
      hide ReadLength, ReadLE16, CopyFrom, Valid, View;
      op := at;
      NextOffset16(token >= 128);
      var length;
      ok, length := NextLength(token / 8 % 16, MAX_SHORT_MATCHLEN, 1);
      if !ok { return; }
      ok, op := TakeMatch(length, dest, op, lim);
    }

    /** A token below 32: a match at a 24-bit offset. */
    method TurnLong(token: byte, dest: array<byte>, at: nat, lim: Limits) returns (ok: bool, op: nat)
      requires Valid() && dest != src && at <= lim.end <= dest.Length && token < 32
      requires LizardCodes.TurnLong(View(), token, dest[..at], lim) != Stop(Unknown)
      modifies this`literalsPtr, this`offset24Ptr, this`lastOff, dest
      ensures Valid()
      ensures var t := LizardCodes.TurnLong(old(View()), token, old(dest[..at]), lim);
              if ok then op <= lim.end && t == Turn(View(), dest[..op], lastOff) else t == Stop(Refused)
      ensures forall k :: lim.end <= k < dest.Length ==> dest[k] == old(dest[k])
    {
      hide ReadLength, ReadLE24, CopyFrom, Valid, View, Offset24Left;
      op := at;
      var length;
      ok, length := NextLength(token, LAST_LONG_OFF, 1);
      if !ok { return; }
      if Offset24Left() < 3 {
        return false, op;
      }
      NextOffset24();
      ok, op := TakeMatch(length + MM_LONGOFF, dest, op, lim);
    }

    method TakeTurn(kind: Codewords, dest: array<byte>, at: nat, lim: Limits) returns (ok: bool, op: nat)
      requires Valid() && dest != src && at <= lim.end <= dest.Length && View().flags != []
      requires LizardCodes.TakeTurn(kind, View(), dest[..at], lastOff, lim) != Stop(Unknown)
      modifies this, dest
      ensures Valid()
      ensures var t := LizardCodes.TakeTurn(kind, old(View()), old(dest[..at]), old(lastOff), lim);
              if ok then op <= lim.end && t == Turn(View(), dest[..op], lastOff) else t == Stop(Refused)
      ensures forall k :: lim.end <= k < dest.Length ==> dest[k] == old(dest[k])
    {
      hide LizardCodes.TurnLZ4, LizardCodes.TurnShort, LizardCodes.TurnLong, Valid, View;
      ghost var s := View();
      var token := NextToken();
      if kind.LZ4? {
        ok, op := TurnLZ4(token, dest, at, lim, s);
      } else if token >= 32 {
        ok, op := TurnShort(token, dest, at, lim);
      } else {
        ok, op := TurnLong(token, dest, at, lim);
      }
    }

    /** The last literals. */
    method TakeTail(dest: array<byte>, at: nat, lim: Limits) returns (ok: bool, op: nat)
      requires Valid() && dest != src && at <= lim.end <= dest.Length
      requires Tail(View().literals, dest[..at], lim) != Unknown
      modifies this`literalsPtr, dest
      ensures match Tail(old(View().literals), old(dest[..at]), lim)
              case Regenerated(out) => ok && at <= op <= lim.end && dest[..op] == out
              case _ => !ok
      ensures forall k :: lim.end <= k < dest.Length ==> dest[k] == old(dest[k])
    {
      var length := literalsEnd - literalsPtr;
      op := at + length;
      if op > lim.oend {
        return false, op;
      }
      Memcpy(dest, at, src, literalsPtr, length);
      ok := true;
      assert dest[..op] == dest[..at] + dest[at..op];
      literalsPtr := literalsPtr + length;
    }

    /** Lizard_decompress_LZ4 and Lizard_decompress_LIZv1: a block behind the `at` bytes of
        output there are. */
    method Decompress(kind: Codewords, dest: array<byte>, at: nat, lim: Limits) returns (r: int)
      requires Valid() && dest != src && at <= lim.end <= dest.Length && lastOff == 0
      requires Decode(kind, View(), dest[..at], lim) != Unknown
      modifies this, dest
      ensures var d := Decode(kind, old(View()), old(dest[..at]), lim);
              if d.Regenerated? then r >= 0 && at + r == |d.bytes| <= lim.end && dest[..at + r] == d.bytes
              else if d.Empty? then r == 0 && dest[..at] == old(dest[..at])
              else r < 0
      ensures forall k :: lim.end <= k < dest.Length ==> dest[k] == old(dest[k])
    {
      hide Run;
      if lim.oend == at {
        assert flagsEnd - flagsPtr == 1 ==> View().flags == [src[flagsPtr]];
        return if flagsEnd - flagsPtr == 1 && src[flagsPtr] == 0 then 0 else -1;
      }
      r := DecodeTokens(kind, dest, at, lim);
    }

    method DecodeTokens(kind: Codewords, dest: array<byte>, at: nat, lim: Limits) returns (r: int)
      requires Valid() && dest != src && at <= lim.end <= dest.Length && lastOff == 0
      requires Run(kind, View(), dest[..at], 0, lim) != Unknown
      modifies this, dest
      ensures var d := Run(kind, old(View()), old(dest[..at]), 0, lim);
              if d.Regenerated? then r >= 0 && at + r == |d.bytes| <= lim.end && dest[..at + r] == d.bytes
              else r < 0
      ensures forall k :: lim.end <= k < dest.Length ==> dest[k] == old(dest[k])
    {
      hide LizardCodes.TakeTurn, Valid, View, TokensLeft, Tail;
      ghost var goal := Run(kind, View(), dest[..at], 0, lim);
      var op: nat, turns: nat := at, 0;
      while TokensLeft() > 0
        invariant Valid() && at <= op <= lim.end && dest != src
        invariant Run(kind, View(), dest[..op], lastOff, lim) == goal
        invariant forall k :: lim.end <= k < dest.Length ==> dest[k] == old(dest[k])
        decreases |View().flags|
      {
        var ok;
        turns := turns + 1;
        ok, op := TakeTurn(kind, dest, op, lim);
        if !ok {
          return -1 - turns;
        }
      }
      var ok;
      ok, op := TakeTail(dest, op, lim);
      r := if ok then op - at else -1 - turns;
    }

    function TokensLeft(): (n: nat)
      requires Valid()
      reads this, src
      ensures n == |View().flags|
    {
      flagsEnd - flagsPtr
    }
  }
}
