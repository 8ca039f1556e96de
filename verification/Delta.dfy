/** The delta filter (c-blosc2/blosc/delta.c:17-146). Words of 2, 4 or 8 bytes are XORed
    byte by byte. */
module Delta {
  import opened Bytes
  import opened Bits
  import opened Arithmetic

  /** The size of the words that are XORed. */
  function WordSize(typesize: nat): (w: nat)
    ensures w == 1 || w == 2 || w == 4 || w == 8
  {
    if typesize == 1 || typesize == 2 || typesize == 4 || typesize == 8 then typesize
    else if typesize % 8 == 0 then 8 else 1
  }

  /** The bytes that make up whole words. */
  function Whole(n: nat, w: nat): (m: nat)
    requires w > 0
    ensures m <= n
  {
    n - n % w
  }

  predicate Aligned(p: nat, w: nat)
    requires w > 0
  {
    p % w == 0
  }

  lemma AlignedStart(w: nat)
    requires w > 0
    ensures Aligned(0, w) && Aligned(w, w)
  {
  }

  lemma NextWord(p: nat, w: nat, n: nat)
    requires w > 0 && Aligned(p, w)
    ensures Aligned(p + w, w)
    ensures p <= n < p + w ==> Whole(n, w) == p
  {
    var q := p / w;
    assert p == q * w && p + w == (q + 1) * w;
    DivUnique(p + w, w, q + 1, 0);
    if p <= n < p + w {
      DivUnique(n, w, q, n - p);
    }
  }

  function XorAll(a: seq<byte>, b: seq<byte>): (c: seq<byte>)
    requires |a| == |b|
    ensures |c| == |a|
  {
    seq(|a|, k requires 0 <= k < |a| => Xor(a[k], b[k]))
  }

  lemma XorAllTwice(a: seq<byte>, b: seq<byte>)
    requires |a| == |b|
    ensures XorAll(XorAll(a, b), b) == a
  {
    hide Xor;
    forall k | 0 <= k < |a|
      ensures Xor(Xor(a[k], b[k]), b[k]) == a[k]
    {
      XorTwice(a[k], b[k]);
    }
  }

  lemma XorAllConcat(a: seq<byte>, b: seq<byte>, c: seq<byte>, d: seq<byte>)
    requires |a| == |c| && |b| == |d|
    ensures XorAll(a + b, c + d) == XorAll(a, c) + XorAll(b, d)
  {
    hide Xor;
  }

  /** What the encoder makes of the reference block: the first word is that of `ref`, and
      every other word is XORed with the word of `ref` before it. */
  ghost predicate DeltaOfFirst(ref: seq<byte>, s: seq<byte>, d: seq<byte>, w: nat) {
    && 0 < w && |s| == |d|
    && var m := Whole(|s|, w);
    && w <= m <= |ref| && d[..w] == ref[..w] && d[w..m] == XorAll(s[w..m], ref[..m - w])
  }

  /** What it makes of any other block: every word is XORed with that of `ref`. */
  ghost predicate DeltaOfOther(ref: seq<byte>, s: seq<byte>, d: seq<byte>, w: nat) {
    && 0 < w && |s| == |d|
    && var m := Whole(|s|, w);
    && m <= |ref| && d[..m] == XorAll(s[..m], ref[..m])
  }

  /** The encoder byte by byte, with words of `w` bytes: in the reference block the first
      word is that of `ref`, and every other byte is XORed with the byte of `ref` one word
      back; in any other block it is XORed with that in its place. */
  ghost predicate Encoded(first: bool, ref: seq<byte>, s: seq<byte>, d: seq<byte>, w: nat) {
    && 0 < w && |s| == |d| && |s| - |s| % w <= |ref|
    && forall k {:trigger d[k]} :: 0 <= k < |s| - |s| % w ==>
         d[k] == if !first then Xor(s[k], ref[k]) else if k < w then ref[k] else Xor(s[k], ref[k - w])
  }

  /** The decoder byte by byte; what is no whole word stays. */
  ghost predicate Decoded(first: bool, ref: seq<byte>, d: seq<byte>, x: seq<byte>, w: nat) {
    && 0 < w && |d| == |x| && |d| - |d| % w <= |ref|
    && forall k {:trigger d[k]} :: 0 <= k < |d| ==>
         x[k] == if k >= |d| - |d| % w || (first && k < w) then d[k]
                 else if first then Xor(d[k], x[k - w]) else Xor(d[k], ref[k])
  }

  lemma EncodedFirst(ref: seq<byte>, s: seq<byte>, d: seq<byte>, w: nat)
    requires DeltaOfFirst(ref, s, d, w)
    ensures Encoded(true, ref, s, d, w)
  {
    hide Xor, XorAll;
    var m := Whole(|s|, w);
    forall k | 0 <= k < m
      ensures d[k] == if k < w then ref[k] else Xor(s[k], ref[k - w])
    {
      if k < w {
        SliceAt(d, 0, w, k);
        SliceAt(ref, 0, w, k);
      } else {
        XorAllAt(s[w..m], ref[..m - w], k - w);
        SliceAt(d, w, m, k);
        SliceAt(s, w, m, k);
      }
    }
  }

  lemma EncodedOther(ref: seq<byte>, s: seq<byte>, d: seq<byte>, w: nat)
    requires DeltaOfOther(ref, s, d, w)
    ensures Encoded(false, ref, s, d, w)
  {
    hide Xor, XorAll;
    var m := Whole(|s|, w);
    forall k | 0 <= k < m
      ensures d[k] == Xor(s[k], ref[k])
    {
      XorAllAt(s[..m], ref[..m], k);
      SliceAt(d, 0, m, k);
    }
  }

  lemma DecodedFirst(d: seq<byte>, x: seq<byte>, w: nat)
    requires UndoneFirst(d, x, w)
    ensures Decoded(true, x, d, x, w)
  {
    hide Xor, XorAll;
    var m := Whole(|d|, w);
    forall k | 0 <= k < |d|
      ensures x[k] == if k >= m || k < w then d[k] else Xor(d[k], x[k - w])
    {
      if k >= m {
        SliceAt(x, m, |x|, k);
        SliceAt(d, m, |d|, k);
      } else if k < w {
        SliceAt(x, 0, w, k);
        SliceAt(d, 0, w, k);
      } else {
        XorAllAt(d[w..m], x[..m - w], k - w);
        SliceAt(x, w, m, k);
        SliceAt(d, w, m, k);
      }
    }
  }

  lemma DecodedOther(ref: seq<byte>, d: seq<byte>, x: seq<byte>, w: nat)
    requires UndoneOther(ref, d, x, w)
    ensures Decoded(false, ref, d, x, w)
  {
    hide Xor, XorAll;
    var m := Whole(|d|, w);
    forall k | 0 <= k < |d|
      ensures x[k] == if k >= m then d[k] else Xor(d[k], ref[k])
    {
      if k >= m {
        SliceAt(x, m, |x|, k);
        SliceAt(d, m, |d|, k);
      } else {
        XorAllAt(d[..m], ref[..m], k);
        SliceAt(x, 0, m, k);
      }
    }
  }

  /** XOR a word of `src` with one of `ref`. */
  method XorWord(w: nat, src: array<byte>, sp: nat, ref: array<byte>, rp: nat, dst: array<byte>, dp: nat)
    requires sp + w <= src.Length && rp + w <= ref.Length && dp + w <= dst.Length
    requires src != dst || sp == dp
    requires ref != dst || rp + w <= dp
    modifies dst
    ensures dst[dp..dp + w] == XorAll(old(src[sp..sp + w]), old(ref[rp..rp + w]))
    ensures forall k :: 0 <= k < dst.Length && !(dp <= k < dp + w) ==> dst[k] == old(dst[k])
  {
    hide Xor;
    for j := 0 to w
      invariant dst[dp..dp + j] == XorAll(old(src[sp..sp + j]), old(ref[rp..rp + j]))
      invariant forall k :: 0 <= k < dst.Length && !(dp <= k < dp + j) ==> dst[k] == old(dst[k])
    {
      assert src[sp + j] == old(src[sp + j]) && ref[rp + j] == old(ref[rp + j]);
      dst[dp + j] := Xor(src[sp + j], ref[rp + j]);
    }
  }

  // ----- The encoder -----

  lemma IsDeltaOfFirst(ref: seq<byte>, src: seq<byte>, sp: nat, d: seq<byte>, x: seq<byte>, dp: nat, n: nat, w: nat)
    requires 0 < w <= Whole(n, w) <= n <= |ref| && sp + n <= |src| && dp + n <= |d|
    requires d[dp..dp + w] == ref[..w] && Done(src, sp, ref, d, x, dp, w, Whole(n, w))
    ensures DeltaOfFirst(ref, src[sp..sp + n], x[dp..dp + n], w)
  {
    hide Whole, XorAll;
    var m := Whole(n, w);
    assert x[dp..dp + w] == d[dp..dp + w];
    SliceInSlice(x, dp, dp + n, 0, w);
    SliceInSlice(x, dp, dp + n, w, m);
    SliceInSlice(src, sp, sp + n, w, m);
  }

  lemma IsDeltaOfOther(ref: seq<byte>, src: seq<byte>, sp: nat, d: seq<byte>, x: seq<byte>, dp: nat, n: nat, w: nat)
    requires 0 < w && n <= |ref| && sp + n <= |src| && dp + n <= |d| && Done(src, sp, ref, d, x, dp, 0, Whole(n, w))
    ensures DeltaOfOther(ref, src[sp..sp + n], x[dp..dp + n], w)
  {
    hide Whole, XorAll;
    var m := Whole(n, w);
    SliceInSlice(x, dp, dp + n, 0, m);
    SliceInSlice(src, sp, sp + n, 0, m);
  }

  /** delta_encoder: `ref` is the chunk, in which the block lies at `offset`. The words are
      those of the type where the processor has such words, those of eight bytes for
      multiples of eight, and single bytes otherwise. */
  method DeltaEncoder(ref: array<byte>, offset: nat, nbytes: nat, typesize: nat,
                      src: array<byte>, sp: nat, dst: array<byte>, dp: nat)
    requires sp + nbytes <= src.Length && dp + nbytes <= dst.Length && nbytes <= ref.Length
    requires dst != src && dst != ref && (offset == 0 ==> WordSize(typesize) <= nbytes)
    modifies dst
    ensures forall k :: 0 <= k < dst.Length && !(dp <= k < dp + nbytes) ==> dst[k] == old(dst[k])
    ensures if offset == 0 then DeltaOfFirst(ref[..], src[sp..sp + nbytes], dst[dp..dp + nbytes], WordSize(typesize))
            else DeltaOfOther(ref[..], src[sp..sp + nbytes], dst[dp..dp + nbytes], WordSize(typesize))
    ensures var s, d := src[sp..sp + nbytes], dst[dp..dp + nbytes];
            && (typesize == 1 ==> Encoded(offset == 0, ref[..], s, d, 1))
            && (typesize == 2 ==> Encoded(offset == 0, ref[..], s, d, 2))
            && (typesize == 4 ==> Encoded(offset == 0, ref[..], s, d, 4))
            && (typesize % 8 == 0 ==> Encoded(offset == 0, ref[..], s, d, 8))
            && (typesize % 8 != 0 && typesize != 2 && typesize != 4 ==> Encoded(offset == 0, ref[..], s, d, 1))
  {
    hide Xor, XorAll, Whole, Aligned, WordSize, DeltaOfFirst, DeltaOfOther, Encoded;
    var w := WordSize(typesize);
    AlignedStart(w);
    if offset == 0 {
      forall k | 0 <= k < w {
        dst[dp + k] := ref[k];
      }
      ghost var d := dst[..];
      assert d[dp..dp + w] == ref[..w];
      EncodeWords(w, w, nbytes, ref, src, sp, dst, dp);
      IsDeltaOfFirst(ref[..], src[..], sp, d, dst[..], dp, nbytes, w);
    } else {
      ghost var d := dst[..];
      EncodeWords(w, 0, nbytes, ref, src, sp, dst, dp);
      IsDeltaOfOther(ref[..], src[..], sp, d, dst[..], dp, nbytes, w);
    }
    assert src[..][sp..sp + nbytes] == src[sp..sp + nbytes] && dst[..][dp..dp + nbytes] == dst[dp..dp + nbytes];
    WordsAre(typesize);
    if offset == 0 {
      EncodedFirst(ref[..], src[sp..sp + nbytes], dst[dp..dp + nbytes], w);
    } else {
      EncodedOther(ref[..], src[sp..sp + nbytes], dst[dp..dp + nbytes], w);
    }
  }

  lemma WordsAre(typesize: nat)
    ensures typesize == 1 || typesize == 2 || typesize == 4 || typesize == 8 ==> WordSize(typesize) == typesize
    ensures typesize % 8 == 0 ==> WordSize(typesize) == 8
    ensures typesize % 8 != 0 && typesize != 2 && typesize != 4 ==> WordSize(typesize) == 1
  {
  }

  /** The bytes of the block at `dp` of `x` from `from` to `p` are those of `src` XORed
      with the beginning of `ref`; the others are those of `d`. */
  ghost predicate Done(src: seq<byte>, sp: nat, ref: seq<byte>, d: seq<byte>, x: seq<byte>, dp: nat, from: nat, p: nat) {
    && from <= p && dp + p <= |d| == |x| && sp + p <= |src| && p - from <= |ref|
    && x[dp + from..dp + p] == XorAll(src[sp + from..sp + p], ref[..p - from])
    && forall k :: 0 <= k < |d| && !(dp + from <= k < dp + p) ==> x[k] == d[k]
  }

  lemma DoneWord(src: seq<byte>, sp: nat, ref: seq<byte>, d: seq<byte>, x: seq<byte>, x': seq<byte>,
                 dp: nat, from: nat, p: nat, w: nat)
    requires Done(src, sp, ref, d, x, dp, from, p) && dp + p + w <= |d| == |x'|
    requires sp + p + w <= |src| && p - from + w <= |ref|
    requires x'[dp + p..dp + p + w] == XorAll(src[sp + p..sp + p + w], ref[p - from..p - from + w])
    requires forall k :: 0 <= k < |x| && !(dp + p <= k < dp + p + w) ==> x'[k] == x[k]
    ensures Done(src, sp, ref, d, x', dp, from, p + w)
  {
    hide XorAll;
    var q := p - from;
    assert x'[dp + from..dp + p] == x[dp + from..dp + p];
    XorAllConcat(src[sp + from..sp + p], src[sp + p..sp + p + w], ref[..q], ref[q..q + w]);
    assert src[sp + from..sp + p + w] == src[sp + from..sp + p] + src[sp + p..sp + p + w];
    assert x'[dp + from..dp + p + w] == x'[dp + from..dp + p] + x'[dp + p..dp + p + w];
    assert ref[..q + w] == ref[..q] + ref[q..q + w];
  }

  lemma NothingDone(src: seq<byte>, sp: nat, ref: seq<byte>, d: seq<byte>, dp: nat, from: nat)
    requires dp + from <= |d| && sp + from <= |src|
    ensures Done(src, sp, ref, d, d, dp, from, from)
  {
  }

  /** The words of a block from the one at `from` on, XORed with those at the beginning of
      the chunk. */
  method EncodeWords(w: nat, from: nat, nbytes: nat, ref: array<byte>, src: array<byte>, sp: nat, dst: array<byte>, dp: nat)
    requires 0 < w && Aligned(from, w) && from <= nbytes <= ref.Length
    requires sp + nbytes <= src.Length && dp + nbytes <= dst.Length && dst != src && dst != ref
    modifies dst
    ensures from <= Whole(nbytes, w) <= nbytes
    ensures Done(src[..], sp, ref[..], old(dst[..]), dst[..], dp, from, Whole(nbytes, w))
  {
    hide *;
    var p := from;
    NothingDone(src[..], sp, ref[..], dst[..], dp, from);
    while p + w <= nbytes
      invariant from <= p <= nbytes && Aligned(p, w)
      invariant Done(src[..], sp, ref[..], old(dst[..]), dst[..], dp, from, p)
    {
      EncodeWord(w, from, p, ref, src, sp, dst, dp, old(dst[..]));
      NextWord(p, w, nbytes);
      p := p + w;
    }
    NextWord(p, w, nbytes);
  }

  /** One word, behind those up to `p`. */
  method EncodeWord(w: nat, from: nat, p: nat, ref: array<byte>, src: array<byte>, sp: nat, dst: array<byte>, dp: nat, ghost d: seq<byte>)
    requires from <= p && p + w <= ref.Length && sp + p + w <= src.Length && dp + p + w <= dst.Length && dst != src && dst != ref
    requires Done(src[..], sp, ref[..], d, dst[..], dp, from, p)
    modifies dst
    ensures Done(src[..], sp, ref[..], d, dst[..], dp, from, p + w)
  {
    hide Xor, XorAll;
    ghost var x := dst[..];
    XorWord(w, src, sp + p, ref, p - from, dst, dp + p);
    DoneWord(src[..], sp, ref[..], d, x, dst[..], dp, from, p, w);
  }

  // ----- The decoder -----

  /** What the decoder makes of the reference block, in place: the first word stays, and
      every other word is XORed with the word before it, undone already. */
  ghost predicate UndoneFirst(d: seq<byte>, x: seq<byte>, w: nat) {
    && 0 < w && |d| == |x|
    && var m := Whole(|d|, w);
    && w <= m && x[..w] == d[..w] && x[w..m] == XorAll(d[w..m], x[..m - w]) && x[m..] == d[m..]
  }

  ghost predicate UndoneOther(ref: seq<byte>, d: seq<byte>, x: seq<byte>, w: nat) {
    && 0 < w && |d| == |x|
    && var m := Whole(|d|, w);
    && m <= |ref| && x[..m] == XorAll(d[..m], ref[..m]) && x[m..] == d[m..]
  }

  /** delta_decoder: the block at `offset` of the chunk is undone where it lies. The
      reference is the beginning of the same chunk. */
  method DeltaDecoder(dst: array<byte>, offset: nat, nbytes: nat, typesize: nat)
    requires offset + nbytes <= dst.Length && (offset == 0 ==> WordSize(typesize) <= nbytes)
    requires offset > 0 ==> nbytes <= offset
    modifies dst
    ensures forall k :: 0 <= k < dst.Length && !(offset <= k < offset + nbytes) ==> dst[k] == old(dst[k])
    ensures if offset == 0 then UndoneFirst(old(dst[..nbytes]), dst[..nbytes], WordSize(typesize))
            else UndoneOther(dst[..nbytes], old(dst[offset..offset + nbytes]), dst[offset..offset + nbytes], WordSize(typesize))
    ensures var ref, d, x := dst[..nbytes], old(dst[offset..offset + nbytes]), dst[offset..offset + nbytes];
            && (typesize == 1 ==> Decoded(offset == 0, ref, d, x, 1))
            && (typesize == 2 ==> Decoded(offset == 0, ref, d, x, 2))
            && (typesize == 4 ==> Decoded(offset == 0, ref, d, x, 4))
            && (typesize % 8 == 0 ==> Decoded(offset == 0, ref, d, x, 8))
            && (typesize % 8 != 0 && typesize != 2 && typesize != 4 ==> Decoded(offset == 0, ref, d, x, 1))
  {
    hide Xor, XorAll, Whole, Aligned, WordSize, UndoneFirst, UndoneOther, Decoded;
    var w := WordSize(typesize);
    AlignedStart(w);
    ghost var d := dst[..];
    if offset == 0 {
      DecodeWords(w, w, nbytes, dst, 0);
      UndoneFirstBlock(d, dst[..], nbytes, w);
      assert d[..nbytes] == old(dst[..nbytes]) && dst[..][..nbytes] == dst[..nbytes];
      DecodedFirst(d[..nbytes], dst[..nbytes], w);
      assert d[..nbytes] == old(dst[0..nbytes]) && dst[..nbytes] == dst[0..nbytes];
    } else {
      DecodeWords(w, 0, nbytes, dst, offset);
      UndoneOtherBlock(d, dst[..], offset, nbytes, w);
      assert d[offset..offset + nbytes] == old(dst[offset..offset + nbytes]);
      assert dst[..][offset..offset + nbytes] == dst[offset..offset + nbytes] && dst[..][..nbytes] == dst[..nbytes];
      DecodedOther(dst[..nbytes], d[offset..offset + nbytes], dst[offset..offset + nbytes], w);
    }
    WordsAre(typesize);
  }

  /** The chunk `x` is `d` with the bytes of the block at `dp` from `from` to `p` undone
      against the beginning of `x` itself. */
  ghost predicate Undone(d: seq<byte>, x: seq<byte>, dp: nat, from: nat, p: nat) {
    && from <= p && dp + p <= |d| == |x|
    && x[dp + from..dp + p] == XorAll(d[dp + from..dp + p], x[..p - from])
    && forall k :: 0 <= k < |d| && !(dp + from <= k < dp + p) ==> x[k] == d[k]
  }

  lemma UndoneWord(d: seq<byte>, x: seq<byte>, x': seq<byte>, dp: nat, from: nat, p: nat, w: nat)
    requires Undone(d, x, dp, from, p) && dp + p + w <= |d| == |x'| && w <= from + dp
    requires x'[dp + p..dp + p + w] == XorAll(x[dp + p..dp + p + w], x[p - from..p - from + w])
    requires forall k :: 0 <= k < |x| && !(dp + p <= k < dp + p + w) ==> x'[k] == x[k]
    ensures Undone(d, x', dp, from, p + w)
  {
    hide XorAll;
    var q := p - from;
    assert x[dp + p..dp + p + w] == d[dp + p..dp + p + w];
    assert x'[dp + from..dp + p] == x[dp + from..dp + p] && x'[..q] == x[..q] && x'[q..q + w] == x[q..q + w];
    XorAllConcat(d[dp + from..dp + p], d[dp + p..dp + p + w], x'[..q], x'[q..q + w]);
    assert d[dp + from..dp + p + w] == d[dp + from..dp + p] + d[dp + p..dp + p + w];
    assert x'[dp + from..dp + p + w] == x'[dp + from..dp + p] + x'[dp + p..dp + p + w];
    assert x'[..q + w] == x'[..q] + x'[q..q + w];
  }

  /** The words of the block at `dp` from the one at `from` on, XORed with those at the
      beginning of the chunk; these must be undone before they are needed. */
  method DecodeWords(w: nat, from: nat, nbytes: nat, dst: array<byte>, dp: nat)
    requires 0 < w && Aligned(from, w) && from <= nbytes && dp + nbytes <= dst.Length
    requires from == w || (from == 0 && nbytes <= dp)
    modifies dst
    ensures from <= Whole(nbytes, w) <= nbytes && Undone(old(dst[..]), dst[..], dp, from, Whole(nbytes, w))
  {
    hide Xor, XorAll, Whole, Aligned, Undone;
    var p := from;
    NothingUndone(dst[..], dp, from);
    while p + w <= nbytes
      invariant from <= p <= nbytes && Aligned(p, w) && Undone(old(dst[..]), dst[..], dp, from, p)
    {
      ghost var x := dst[..];
      XorWord(w, dst, dp + p, dst, p - from, dst, dp + p);
      NextWord(p, w, nbytes);
      assert dst[..][dp + p..dp + p + w] == dst[dp + p..dp + p + w];
      UndoneWord(old(dst[..]), x, dst[..], dp, from, p, w);
      p := p + w;
    }
    NextWord(p, w, nbytes);
  }

  lemma NothingUndone(d: seq<byte>, dp: nat, from: nat)
    requires dp + from <= |d|
    ensures Undone(d, d, dp, from, from)
  {
  }

  lemma UndoneFirstBlock(d: seq<byte>, x: seq<byte>, n: nat, w: nat)
    requires 0 < w <= Whole(n, w) <= n <= |d| && Undone(d, x, 0, w, Whole(n, w))
    ensures UndoneFirst(d[..n], x[..n], w)
  {
    hide XorAll, Whole;
    var m := Whole(n, w);
    assert d[..n][w..m] == d[0 + w..0 + m] && x[..n][w..m] == x[0 + w..0 + m];
    assert x[..n][..m - w] == x[..m - w];
  }

  lemma UndoneOtherBlock(d: seq<byte>, x: seq<byte>, dp: nat, n: nat, w: nat)
    requires 0 < w && n <= dp && dp + n <= |d| && Undone(d, x, dp, 0, Whole(n, w))
    ensures UndoneOther(x[..n], d[dp..dp + n], x[dp..dp + n], w)
  {
    hide XorAll, Whole;
    var m := Whole(n, w);
    SliceInSlice(d, dp, dp + n, 0, m);
    SliceInSlice(x, dp, dp + n, 0, m);
    SliceInSlice(x, 0, n, 0, m);
    SliceInSlice(d, dp, dp + n, m, n);
    SliceInSlice(x, dp, dp + n, m, n);
    assert x[dp + m..dp + n] == d[dp + m..dp + n];
  }

  // ----- There and back -----

  /** Decoding gives the block back when it is made up of whole words. */
  lemma FirstRoundTrip(s: seq<byte>, d: seq<byte>, x: seq<byte>, w: nat)
    requires DeltaOfFirst(s, s, d, w) && UndoneFirst(d, x, w) && |s| % w == 0
    ensures x == s
  {
    forall k | 0 <= k < |s|
      ensures x[k] == s[k]
    {
      FirstByteBack(s, d, x, w, k);
    }
  }

  lemma {:induction false} FirstByteBack(s: seq<byte>, d: seq<byte>, x: seq<byte>, w: nat, k: nat)
    requires DeltaOfFirst(s, s, d, w) && UndoneFirst(d, x, w) && |s| % w == 0 && k < |s|
    ensures x[k] == s[k]
  {
    hide Xor, XorAll, DeltaOfFirst, UndoneFirst;
    FirstAt(s, s, d, w, k);
    UndoneFirstAt(d, x, w, k);
    if k >= w {
      FirstByteBack(s, d, x, w, k - w);
      XorTwice(s[k], s[k - w]);
    }
  }

  lemma XorAllAt(a: seq<byte>, b: seq<byte>, k: nat)
    requires |a| == |b| && k < |a|
    ensures XorAll(a, b)[k] == Xor(a[k], b[k])
  {
    hide Xor;
  }

  lemma FirstAt(ref: seq<byte>, s: seq<byte>, d: seq<byte>, w: nat, k: nat)
    requires DeltaOfFirst(ref, s, d, w) && |s| % w == 0 && k < |s|
    ensures |d| == |s| <= |ref| && 0 < w
    ensures d[k] == if k < w then ref[k] else Xor(s[k], ref[k - w])
  {
    hide Xor, XorAll;
    var n := |s|;
    if k < w {
      assert d[k] == d[..w][k] == ref[..w][k];
    } else {
      XorAllAt(s[w..n], ref[..n - w], k - w);
      SliceAt(d, w, n, k);
      SliceAt(s, w, n, k);
    }
  }

  lemma UndoneFirstAt(d: seq<byte>, x: seq<byte>, w: nat, k: nat)
    requires UndoneFirst(d, x, w) && |d| % w == 0 && k < |d|
    ensures |d| == |x| && 0 < w
    ensures x[k] == if k < w then d[k] else Xor(d[k], x[k - w])
  {
    hide Xor, XorAll;
    var n := |d|;
    if k < w {
      assert x[k] == x[..w][k] == d[..w][k];
    } else {
      XorAllAt(d[w..n], x[..n - w], k - w);
      SliceAt(x, w, n, k);
      SliceAt(d, w, n, k);
    }
  }

  lemma OtherRoundTrip(ref: seq<byte>, s: seq<byte>, d: seq<byte>, x: seq<byte>, w: nat)
    requires DeltaOfOther(ref, s, d, w) && UndoneOther(ref, d, x, w) && |s| % w == 0
    ensures x == s
  {
    hide XorAll;
    XorAllTwice(s, ref[..|s|]);
    assert s[..|s|] == s && d[..|s|] == d && x[..|s|] == x;
  }

  /** Behind other filters the reference block need not come back: the encoder XORs `s`,
      what they have made of it, with the chunk as it was, and the decoder with what it has
      undone. It gives `s` back exactly if the two agree, but for the last word. */
  lemma FirstBehindFilters(ref: seq<byte>, s: seq<byte>, d: seq<byte>, x: seq<byte>, w: nat)
    requires DeltaOfFirst(ref, s, d, w) && UndoneFirst(d, x, w) && |s| % w == 0
    ensures x == s <==> s[..w] == ref[..w] && s[..|s| - w] == ref[..|s| - w]
  {
    hide XorAll;
    var n := |s|;
    if x == s {
      XorAllAgree(s[w..n], ref[..n - w], s[..n - w]);
    }
    if s[..w] == ref[..w] && s[..n - w] == ref[..n - w] {
      assert DeltaOfFirst(s, s, d, w);
      FirstRoundTrip(s, d, x, w);
    }
  }

  lemma XorAllAgree(a: seq<byte>, b: seq<byte>, c: seq<byte>)
    requires |a| == |b| == |c| && XorAll(XorAll(a, b), c) == a
    ensures b == c
  {
    hide Xor;
    forall k | 0 <= k < |a|
      ensures b[k] == c[k]
    {
      assert XorAll(XorAll(a, b), c)[k] == Xor(Xor(a[k], b[k]), c[k]);
      XorCancels(a[k], b[k], c[k]);
    }
  }

  lemma XorCancels(a: byte, b: byte, c: byte)
    requires Xor(Xor(a, b), c) == a
    ensures b == c
  {
    hide Bit, Xor;
    forall k: nat | k < 8
      ensures Bit(b, k) <==> Bit(c, k)
    {
      XorBit(a, b, k);
      XorBit(Xor(a, b), c, k);
    }
    BitsDecide(b, c);
  }

  /** Bytes that do not make up a word are lost: the encoder's output is the same
      whatever they are. */
  lemma TailIsLost(ref: seq<byte>, s: seq<byte>, s2: seq<byte>, d: seq<byte>, w: nat)
    requires 0 < w && |s| == |s2| && s[..Whole(|s|, w)] == s2[..Whole(|s|, w)]
    ensures DeltaOfOther(ref, s, d, w) <==> DeltaOfOther(ref, s2, d, w)
    ensures DeltaOfFirst(ref, s, d, w) <==> DeltaOfFirst(ref, s2, d, w)
  {
    hide XorAll, Whole;
    var m := Whole(|s|, w);
    if w <= m {
      assert s[w..m] == s[..m][w..] && s2[w..m] == s2[..m][w..];
    }
  }
}
