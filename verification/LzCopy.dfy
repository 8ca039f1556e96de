/** The overlapping copy on which every Lempel-Ziv decoder in the library rests,
    and the block copies that implement it. */
module LzCopy {
  import opened Bytes

  /** Append `len` bytes to `out`, each one read `dist` bytes behind the end. */
  function CopyMatch(out: seq<byte>, dist: nat, len: nat): (r: seq<byte>)
    requires 1 <= dist <= |out|
    ensures |r| == |out| + len && out <= r
    decreases len
  {
    if len == 0 then out else CopyMatch(out + [out[|out| - dist]], dist, len - 1)
  }

  /** `r` extends `out` and from there on repeats what is `dist` bytes behind. */
  ghost predicate Repeats(out: seq<byte>, r: seq<byte>, dist: nat) {
    && 1 <= dist <= |out| <= |r|
    && r[..|out|] == out
    && forall k :: |out| <= k < |r| ==> r[k] == r[k - dist]
  }

  lemma {:induction false} CopyMatchRepeats(out: seq<byte>, dist: nat, len: nat)
    requires 1 <= dist <= |out|
    ensures Repeats(out, CopyMatch(out, dist, len), dist)
    decreases len
  {
    if len > 0 {
      var next := out + [out[|out| - dist]];
      CopyMatchRepeats(next, dist, len - 1);
      var r := CopyMatch(out, dist, len);
      assert r[..|next|] == next;
      assert r[..|out|] == next[..|out|] == out;
      forall k | |out| <= k < |r| ensures r[k] == r[k - dist] {
        if k == |out| {
          assert r[k] == next[k] && r[k - dist] == next[k - dist];
        }
      }
    }
  }

  /** The repetition determines the bytes: any sequence with it is the copy. */
  lemma {:induction false} RepeatsIsCopyMatch(out: seq<byte>, r: seq<byte>, dist: nat)
    requires Repeats(out, r, dist)
    ensures r == CopyMatch(out, dist, |r| - |out|)
    decreases |r| - |out|
  {
    if |r| > |out| {
      var next := out + [out[|out| - dist]];
      assert r[|out|] == r[|out| - dist] == r[..|out|][|out| - dist];
      assert r[..|next|] == r[..|out|] + [r[|out|]];
      RepeatsIsCopyMatch(next, r, dist);
    } else {
      assert r == r[..|out|];
    }
  }

  /** A match found in `s` -- every byte of [at, at+len) equals the byte `dist`
      before it -- copied onto s[..at] gives s[..at+len]. */
  lemma MatchReproduces(s: seq<byte>, at: nat, dist: nat, len: nat)
    requires 1 <= dist <= at && at + len <= |s|
    requires forall k :: at <= k < at + len ==> s[k] == s[k - dist]
    ensures CopyMatch(s[..at], dist, len) == s[..at + len]
  {
    var r := s[..at + len];
    assert r[..at] == s[..at];
    assert Repeats(s[..at], r, dist);
    RepeatsIsCopyMatch(s[..at], r, dist);
  }

  const CPYSIZE: nat := 8

  /** memcpy: the two regions must not overlap. */
  method MemCpy(dst: array<byte>, d: nat, src: array<byte>, s: nat, n: nat)
    requires d + n <= dst.Length && s + n <= src.Length
    requires dst == src ==> s + n <= d || d + n <= s
    modifies dst
    ensures forall k :: 0 <= k < dst.Length ==>
              dst[k] == if d <= k < d + n then old(src[s + (k - d)]) else old(dst[k])
  {
    forall k | d <= k < d + n {
      dst[k] := src[s + (k - d)];
    }
  }

  /** Chunks of CPYSIZE from the first `from` bytes on, until `upto` bytes are copied. */
  method CopyChunks(dst: array<byte>, op: nat, src: array<byte>, ref: nat, from: nat, upto: nat, limit: nat) returns (done: nat)
    requires from % CPYSIZE == 0 && upto % CPYSIZE == 0 && from <= upto && op + upto <= limit <= dst.Length
    requires ref + upto <= src.Length
    requires dst == src ==> ref + CPYSIZE <= op
    requires forall k :: op <= k < op + from ==> dst[k] == src[ref + (k - op)]
    modifies dst
    ensures done == upto
    ensures forall k :: op <= k < op + upto ==> dst[k] == src[ref + (k - op)]
    ensures forall k :: 0 <= k < op || limit <= k < dst.Length ==> dst[k] == old(dst[k])
  {
    done := from;
    while done < upto
      invariant from <= done <= upto && done % CPYSIZE == 0
      invariant forall k :: op <= k < op + done ==> dst[k] == src[ref + (k - op)]
      invariant forall k :: 0 <= k < op || limit <= k < dst.Length ==> dst[k] == old(dst[k])
    {
      CopyChunk(dst, op, src, ref, done, limit);
      done := done + CPYSIZE;
    }
  }

  /** One chunk, behind the `done` bytes that are there. */
  method CopyChunk(dst: array<byte>, op: nat, src: array<byte>, ref: nat, done: nat, limit: nat)
    requires op + done + CPYSIZE <= limit <= dst.Length && ref + done + CPYSIZE <= src.Length
    requires dst == src ==> ref + CPYSIZE <= op
    requires forall k :: op <= k < op + done ==> dst[k] == src[ref + (k - op)]
    modifies dst
    ensures forall k :: op <= k < op + done + CPYSIZE ==> dst[k] == src[ref + (k - op)]
    ensures forall k :: 0 <= k < op || limit <= k < dst.Length ==> dst[k] == old(dst[k])
  {
    MemCpy(dst, op + done, src, ref + done, CPYSIZE);
    forall k | op <= k < op + done + CPYSIZE
      ensures dst[k] == src[ref + (k - op)]
    {
      if k < op + done {
        assert dst[k] == old(dst[k]) && src[ref + (k - op)] == old(src[ref + (k - op)]);
      }
    }
  }

  /** BLOCK_COPY: whole chunks of CPYSIZE, past the end of the block when the
      limit leaves room for that, byte by byte at the end when it does not. The
      source may be the destination itself, at least a chunk behind; it is read
      up to the end of the last chunk. */
  method BlockCopy(dst: array<byte>, op: nat, src: array<byte>, ref: nat, len: nat, limit: nat)
    requires 1 <= len && op + len <= limit <= dst.Length
    requires ref + len + CPYSIZE - 1 <= src.Length || (dst == src && ref + CPYSIZE <= op)
    requires dst == src ==> ref + CPYSIZE <= op
    modifies dst
    ensures forall k :: op <= k < op + len ==> dst[k] == src[ref + (k - op)]
    ensures forall k :: 0 <= k < op || limit <= k < dst.Length ==> dst[k] == old(dst[k])
  {
    var ilen := len % CPYSIZE;
    var done: nat;
    if len + CPYSIZE - ilen <= limit - op {
      MemCpy(dst, op, src, ref, CPYSIZE);
      done := CopyChunks(dst, op, src, ref, CPYSIZE, if ilen == 0 then len else len + CPYSIZE - ilen, limit);
    } else {
      done := CopyChunks(dst, op, src, ref, 0, len - ilen, limit);
      while done < len
        invariant done <= len
        invariant forall k :: op <= k < op + done ==> dst[k] == src[ref + (k - op)]
        invariant forall k :: 0 <= k < op || limit <= k < dst.Length ==> dst[k] == old(dst[k])
      {
        dst[op + done] := src[ref + done];
        done := done + 1;
      }
    }
  }

  /** GCC_SAFE_COPY: long matches and those closer than a chunk go byte by byte,
      the others through BLOCK_COPY. Either way the result is the overlapping copy. */
  method CopyWithin(a: array<byte>, op: nat, dist: nat, len: nat, limit: nat)
    requires 1 <= len && 1 <= dist <= op && op + len <= limit <= a.Length
    modifies a
    ensures a[..op + len] == CopyMatch(old(a[..op]), dist, len)
    ensures forall k :: limit <= k < a.Length ==> a[k] == old(a[k])
  {
    if len > 32 || dist < CPYSIZE {
      var d := op;
      while d < op + len
        invariant op <= d <= op + len
        invariant forall k :: op <= k < d ==> a[k] == a[k - dist]
        invariant forall k :: 0 <= k < op || limit <= k < a.Length ==> a[k] == old(a[k])
      {
        a[d] := a[d - dist];
        d := d + 1;
      }
    } else {
      BlockCopy(a, op, a, op - dist, len, limit);
      assert forall k :: op <= k < op + len ==> a[k] == a[op - dist + (k - op)];
    }
    assert a[..op + len][..op] == old(a[..op]);
    assert Repeats(old(a[..op]), a[..op + len], dist);
    RepeatsIsCopyMatch(old(a[..op]), a[..op + len], dist);
  }

  /** memset: the copy of a run, whose distance is one. */
  method FillRun(a: array<byte>, op: nat, len: nat)
    requires 1 <= op && op + len <= a.Length
    modifies a
    ensures a[..op + len] == CopyMatch(old(a[..op]), 1, len)
    ensures forall k :: op + len <= k < a.Length ==> a[k] == old(a[k])
  {
    var b := a[op - 1];
    forall k | op <= k < op + len {
      a[k] := b;
    }
    assert a[..op + len][..op] == old(a[..op]);
    assert Repeats(old(a[..op]), a[..op + len], 1);
    RepeatsIsCopyMatch(old(a[..op]), a[..op + len], 1);
  }
}
