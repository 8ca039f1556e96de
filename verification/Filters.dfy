/** The filters of a block: the dispatch on the number of elements
    (c-blosc2/blosc/shuffle.c:388-426) and the pipelines with their cycling buffers
    (c-blosc2/blosc/blosc.c:548-620, 753-824). */
module Filters {
  import opened Bytes
  import opened Bits
  import opened Shuffle
  import opened Bitshuffle
  import opened Delta

  const NOFILTER := 0
  const SHUFFLE := 1
  const BITSHUFFLE := 2
  const DELTA := 3
  const MAX_FILTERS := 5

  // ----- One filter -----

  /** What the bit shuffle makes of a block. Bytes that do not make up an element are
      not written when the elements are shuffled. */
  ghost predicate BitShuffled(ts: nat, s: seq<byte>, d: seq<byte>)
    requires ts > 0
  {
    var size := Elements(ts, |s|);
    && |s| == |d| && size * ts <= |s|
    && if size % 8 == 0 then BitRows(s[..size * ts], d[..size * ts], size / 8, ts) else d == s
  }

  /** The bit shuffle loses nothing: it does nothing, or nothing is left over. */
  predicate Lossless(ts: nat, n: nat)
    requires ts > 0
  {
    Elements(ts, n) % 8 != 0 || Remainder(ts, n) == 0
  }

  /** The output tells the input exactly when the bit shuffle loses nothing. */
  lemma BitShuffleInjective(ts: nat, s: seq<byte>, s2: seq<byte>, d: seq<byte>)
    requires ts > 0 && BitShuffled(ts, s, d) && BitShuffled(ts, s2, d) && Lossless(ts, |s|)
    ensures s == s2
  {
    hide Elements, Remainder, BitRows;
    var size := Elements(ts, |s|);
    ElementsMake(ts, |s|);
    if size % 8 == 0 {
      RowsDecideElements(s[..size * ts], s2[..size * ts], d[..size * ts], size / 8, ts);
      assert s[..size * ts] == s && s2[..size * ts] == s2;
    }
  }

  lemma BitShuffleLosesTail(ts: nat, s: seq<byte>, d: seq<byte>)
    requires ts > 0 && BitShuffled(ts, s, d) && !Lossless(ts, |s|)
    ensures exists s2: seq<byte> :: s2 != s && BitShuffled(ts, s2, d)
  {
    hide Elements, Remainder, BitRows;
    var size := Elements(ts, |s|);
    ElementsMake(ts, |s|);
    var n := |s| - 1;
    var s2 := s[n := if s[n] == 0 then 1 else 0];
    assert s2[n] != s[n];
    assert s2[..size * ts] == s[..size * ts];
    assert BitShuffled(ts, s2, d);
  }

  lemma IsBitShuffled(ts: nat, src: seq<byte>, sp: nat, dst: seq<byte>, dp: nat, n: nat)
    requires ts > 0 && sp + n <= |src| && dp + n <= |dst|
    ensures Elements(ts, n) * ts <= n
    ensures var len := Elements(ts, n) * ts;
            Elements(ts, n) % 8 == 0 && BitRows(src[sp..sp + len], dst[dp..dp + len], Elements(ts, n) / 8, ts) ==>
              BitShuffled(ts, src[sp..sp + n], dst[dp..dp + n])
    ensures Elements(ts, n) % 8 != 0 && dst[dp..dp + n] == src[sp..sp + n] ==>
              BitShuffled(ts, src[sp..sp + n], dst[dp..dp + n])
  {
    hide Elements, Remainder, BitRows;
    ElementsMake(ts, n);
    SliceInSlice(src, sp, sp + n, 0, Elements(ts, n) * ts);
    SliceInSlice(dst, dp, dp + n, 0, Elements(ts, n) * ts);
  }

  /** bitshuffle. */
  method BitShuffle(ts: nat, blocksize: nat, src: array<byte>, sp: nat, dst: array<byte>, dp: nat, tmp: array<byte>)
    returns (r: int)
    requires ts > 0 && sp + blocksize <= src.Length && dp + blocksize <= dst.Length && blocksize <= tmp.Length
    requires src != dst && tmp != dst && tmp != src
    modifies dst, tmp
    ensures r >= 0 && BitShuffled(ts, src[sp..sp + blocksize], dst[dp..dp + blocksize])
    ensures forall k :: 0 <= k < dst.Length && !(dp <= k < dp + blocksize) ==> dst[k] == old(dst[k])
  {
    hide *;
    var size := Elements(ts, blocksize);
    ElementsMake(ts, blocksize);
    ghost var len := size * ts;
    if size % 8 == 0 {
      ghost var before := dst[..];
      r := TransBitElem(size, ts, src, sp, dst, dp, tmp, len);
      SameOutside(before, dst[..], dp, len, blocksize);
    } else {
      Memcpy(dst, dp, src, sp, blocksize);
      r := size;
    }
    IsBitShuffled(ts, src[..], sp, dst[..], dp, blocksize);
    assert src[..][sp..sp + len] == src[sp..sp + len] && dst[..][dp..dp + len] == dst[dp..dp + len];
    assert src[..][sp..sp + blocksize] == src[sp..sp + blocksize];
    assert dst[..][dp..dp + blocksize] == dst[dp..dp + blocksize];
  }

  lemma SameOutside(d: seq<byte>, d': seq<byte>, dp: nat, len: nat, n: nat)
    requires |d| == |d'| && dp + n <= |d| && len <= n
    requires d'[..dp] == d[..dp] && d'[dp + len..] == d[dp + len..]
    ensures forall k :: 0 <= k < |d| && !(dp <= k < dp + n) ==> d'[k] == d[k]
  {
    forall k | 0 <= k < |d| && !(dp <= k < dp + n)
      ensures d'[k] == d[k]
    {
      if k < dp {
        assert d'[..dp][k] == d[..dp][k];
      } else {
        assert d'[dp + len..][k - dp - len] == d[dp + len..][k - dp - len];
      }
    }
  }

  /** bitunshuffle: the scratch buffer must not be the source. */
  method BitUnshuffle(ts: nat, blocksize: nat, src: array<byte>, sp: nat, dst: array<byte>, dp: nat, tmp: array<byte>)
    returns (r: int)
    requires ts > 0 && sp + blocksize <= src.Length && dp + blocksize <= dst.Length && blocksize <= tmp.Length
    requires src != dst && tmp != dst && tmp != src
    modifies dst, tmp
    ensures r >= 0 && BitShuffled(ts, dst[dp..dp + blocksize], src[sp..sp + blocksize])
    ensures forall k :: 0 <= k < dst.Length && !(dp <= k < dp + blocksize) ==> dst[k] == old(dst[k])
  {
    hide *;
    var size := Elements(ts, blocksize);
    ElementsMake(ts, blocksize);
    ghost var len := size * ts;
    if size % 8 == 0 {
      ghost var before := dst[..];
      r := UntransBitElem(size, ts, src, sp, dst, dp, tmp, len);
      SameOutside(before, dst[..], dp, len, blocksize);
    } else {
      Memcpy(dst, dp, src, sp, blocksize);
      r := size;
    }
    IsBitShuffled(ts, dst[..], dp, src[..], sp, blocksize);
    assert src[..][sp..sp + len] == src[sp..sp + len] && dst[..][dp..dp + len] == dst[dp..dp + len];
    assert src[..][sp..sp + blocksize] == src[sp..sp + blocksize];
    assert dst[..][dp..dp + blocksize] == dst[dp..dp + blocksize];
  }
}
