/** The byte shuffle: the generic loops (c-blosc2/blosc/shuffle-generic.h:32-79). */
module Shuffle {
  import opened Bytes
  import opened Arithmetic

  /** The place of column `j` in row `i` of a matrix with `m` columns. */
  function At(i: nat, m: nat, j: nat): nat {
    i * m + j
  }

  lemma AtFits(n: nat, i: nat, m: nat, j: nat)
    requires i < n && j < m
    ensures At(i, m, j) < n * m
  {
    assert (i + 1) * m <= n * m;
  }

  lemma AtTells(i: nat, m: nat, j: nat)
    requires j < m
    ensures At(i, m, j) / m == i && At(i, m, j) % m == j
  {
    DivUnique(At(i, m, j), m, i, j);
  }

  lemma AtDiffers(i: nat, m: nat, j: nat, i2: nat, j2: nat)
    requires j < m && j2 < m && (i != i2 || j != j2)
    ensures At(i, m, j) != At(i2, m, j2)
  {
    hide At;
    AtTells(i, m, j);
    AtTells(i2, m, j2);
  }

  lemma EveryPlace(k: nat, n: nat, m: nat)
    requires k < n * m
    ensures m > 0 && k / m < n && k % m < m && k == At(k / m, m, k % m)
  {
    assert m > 0;
    assert k == m * (k / m) + k % m;
    ProductGrows(n, k / m, m);
  }

  /** Column by column: an `n` by `m` matrix given row by row becomes `m` by `n`. */
  function Transposed(s: seq<byte>, n: nat, m: nat): (d: seq<byte>)
    requires |s| == n * m
    ensures |d| == n * m
  {
    seq(n * m, k requires 0 <= k < n * m =>
      (EveryPlace(k, m, n); AtFits(n, k % n, m, k / n); s[At(k % n, m, k / n)]))
  }

  lemma TransposedAt(s: seq<byte>, n: nat, m: nat, i: nat, j: nat)
    requires |s| == n * m && i < n && j < m
    ensures At(j, n, i) < n * m && At(i, m, j) < n * m
    ensures Transposed(s, n, m)[At(j, n, i)] == s[At(i, m, j)]
  {
    hide At;
    AtFits(m, j, n, i);
    AtFits(n, i, m, j);
    AtTells(j, n, i);
  }

  lemma TransposedDecides(s: seq<byte>, d: seq<byte>, n: nat, m: nat)
    requires |s| == |d| == n * m
    requires forall i, j :: 0 <= i < n && 0 <= j < m ==>
               At(j, n, i) < n * m && At(i, m, j) < n * m && d[At(j, n, i)] == s[At(i, m, j)]
    ensures d == Transposed(s, n, m)
  {
    hide At;
    forall k | 0 <= k < n * m
      ensures d[k] == Transposed(s, n, m)[k]
    {
      EveryPlace(k, m, n);
      TransposedAt(s, n, m, k % n, k / n);
    }
  }

  /** Transposing back. */
  lemma TransposedTwice(s: seq<byte>, n: nat, m: nat)
    requires |s| == n * m
    ensures |Transposed(s, n, m)| == m * n && Transposed(Transposed(s, n, m), m, n) == s
  {
    hide At, Transposed;
    var d := Transposed(s, n, m);
    assert m * n == n * m;
    forall i, j | 0 <= i < m && 0 <= j < n
      ensures At(j, m, i) < m * n && At(i, n, j) < m * n && s[At(j, m, i)] == d[At(i, n, j)]
    {
      TransposedAt(s, n, m, j, i);
    }
    TransposedDecides(d, s, m, n);
  }

  lemma AtAllDiffer(i: nat, m: nat, j: nat)
    requires j < m
    ensures forall i2: nat, j2: nat :: j2 < m && (i != i2 || j != j2) ==> At(i2, m, j2) != At(i, m, j)
  {
    hide At;
    forall i2: nat, j2: nat | j2 < m && (i != i2 || j != j2)
      ensures At(i2, m, j2) != At(i, m, j)
    {
      AtDiffers(i2, m, j2, i, j);
    }
  }

  /** The elements of the rows `i0` to `n` and the columns from `j0` on are in their
      place, as far as column `j` and, in it, row `i`. */
  ghost predicate Moved(s: seq<byte>, d: seq<byte>, n: nat, m: nat, j0: nat, i0: nat, j: nat, i: nat) {
    && |s| == |d| == n * m
    && forall j2: nat, i2: nat :: j0 <= j2 < m && i0 <= i2 < n && (j2 < j || (j2 == j && i2 < i)) ==>
         At(j2, n, i2) < |d| && At(i2, m, j2) < |s| && d[At(j2, n, i2)] == s[At(i2, m, j2)]
  }

  /** So are the others, if that is what a faster way has done before. */
  ghost predicate Before(s: seq<byte>, d: seq<byte>, n: nat, m: nat, j0: nat, i0: nat) {
    && |s| == |d| == n * m
    && forall j2: nat, i2: nat :: j2 < m && i2 < n && (j2 < j0 || i2 < i0) ==>
         At(j2, n, i2) < |d| && At(i2, m, j2) < |s| && d[At(j2, n, i2)] == s[At(i2, m, j2)]
  }

  lemma MoveOne(s: seq<byte>, d: seq<byte>, n: nat, m: nat, j0: nat, i0: nat, j: nat, i: nat)
    requires Moved(s, d, n, m, j0, i0, j, i) && j0 <= j < m && i0 <= i < n
    ensures At(j, n, i) < |d| && At(i, m, j) < |s|
    ensures Moved(s, d[At(j, n, i) := s[At(i, m, j)]], n, m, j0, i0, j, i + 1)
    ensures Before(s, d, n, m, j0, i0) ==> Before(s, d[At(j, n, i) := s[At(i, m, j)]], n, m, j0, i0)
  {
    hide At;
    AtFits(m, j, n, i);
    AtFits(n, i, m, j);
    AtAllDiffer(j, n, i);
  }

  lemma AllMoved(s: seq<byte>, d: seq<byte>, n: nat, m: nat, j0: nat, i0: nat)
    requires Moved(s, d, n, m, j0, i0, m, i0) && Before(s, d, n, m, j0, i0)
    ensures d == Transposed(s, n, m)
  {
    hide At, Transposed;
    TransposedDecides(s, d, n, m);
  }

  /** The two loops of shuffle_generic_inline, and of unshuffle_generic_inline with rows
      and columns exchanged: one element at a time, from row `i0` and column `j0` on. */
  method MoveElements(n: nat, m: nat, j0: nat, i0: nat, src: array<byte>, sp: nat, dst: array<byte>, dp: nat, ghost len: nat)
    requires src != dst && sp + len <= src.Length && dp + len <= dst.Length && i0 <= n && j0 <= m && len == n * m
    modifies dst
    ensures dst[..dp] == old(dst[..dp]) && dst[dp + len..] == old(dst[dp + len..])
    ensures Before(src[sp..sp + len], old(dst[dp..dp + len]), n, m, j0, i0) ==>
              dst[dp..dp + len] == Transposed(src[sp..sp + len], n, m)
  {
    hide At, Before, Transposed;
    ghost var s, d0 := src[sp..sp + len], dst[dp..dp + len];
    for j := j0 to m
      invariant Moved(s, dst[dp..dp + len], n, m, j0, i0, j, i0)
      invariant Before(s, d0, n, m, j0, i0) ==> Before(s, dst[dp..dp + len], n, m, j0, i0)
      invariant dst[..dp] == old(dst[..dp]) && dst[dp + len..] == old(dst[dp + len..])
    {
      for i := i0 to n
        invariant Moved(s, dst[dp..dp + len], n, m, j0, i0, j, i)
        invariant Before(s, d0, n, m, j0, i0) ==> Before(s, dst[dp..dp + len], n, m, j0, i0)
        invariant dst[..dp] == old(dst[..dp]) && dst[dp + len..] == old(dst[dp + len..])
      {
        ghost var d := dst[dp..dp + len];
        MoveOne(s, d, n, m, j0, i0, j, i);
        dst[dp + At(j, n, i)] := src[sp + At(i, m, j)];
        assert dst[dp..dp + len] == d[At(j, n, i) := s[At(i, m, j)]];
      }
    }
    if Before(s, d0, n, m, j0, i0) {
      AllMoved(s, dst[dp..dp + len], n, m, j0, i0);
    }
  }

  // ----- Blocks with a remainder -----

  function Elements(ts: nat, len: nat): nat
    requires ts > 0
  {
    len / ts
  }

  function Remainder(ts: nat, len: nat): nat
    requires ts > 0
  {
    len % ts
  }

  lemma ElementsMake(ts: nat, len: nat)
    requires ts > 0
    ensures Elements(ts, len) * ts + Remainder(ts, len) == len
  {
  }

  lemma ElementsOf(ts: nat, len: nat)
    requires ts > 0
    ensures ts * Elements(ts, len) == Elements(ts, len) * ts
  {
  }

  /** The bytes of a block regrouped by their place in the element; what does not make
      up an element stays at the end. */
  function Shuffled(ts: nat, s: seq<byte>): (d: seq<byte>)
    requires ts > 0
    ensures |d| == |s|
  {
    var n := Elements(ts, |s|);
    ElementsMake(ts, |s|);
    Transposed(s[..n * ts], n, ts) + s[n * ts..]
  }

  function Unshuffled(ts: nat, s: seq<byte>): (d: seq<byte>)
    requires ts > 0
    ensures |d| == |s|
  {
    var n := Elements(ts, |s|);
    ElementsMake(ts, |s|);
    ElementsOf(ts, |s|);
    Transposed(s[..n * ts], ts, n) + s[n * ts..]
  }

  lemma IsShuffled(ts: nat, s: seq<byte>, d: seq<byte>, whole: nat)
    requires ts > 0 && |s| == |d| && whole + Remainder(ts, |s|) == |s|
    ensures whole == Elements(ts, |s|) * ts
    ensures d[..whole] == Transposed(s[..whole], Elements(ts, |s|), ts) && d[whole..] == s[whole..] ==> d == Shuffled(ts, s)
  {
    hide Transposed, Elements, Remainder;
    ElementsMake(ts, |s|);
    assert d == d[..whole] + d[whole..];
  }

  lemma IsUnshuffled(ts: nat, s: seq<byte>, d: seq<byte>, whole: nat)
    requires ts > 0 && |s| == |d| && whole + Remainder(ts, |s|) == |s|
    ensures whole == Elements(ts, |s|) * ts == ts * Elements(ts, |s|)
    ensures d[..whole] == Transposed(s[..whole], ts, Elements(ts, |s|)) && d[whole..] == s[whole..] ==> d == Unshuffled(ts, s)
  {
    hide Transposed, Elements, Remainder;
    ElementsMake(ts, |s|);
    ElementsOf(ts, |s|);
    assert d == d[..whole] + d[whole..];
  }

  /** Unshuffling undoes shuffling, and the other way round. */
  lemma UnshuffleShuffle(ts: nat, s: seq<byte>)
    requires ts > 0
    ensures Unshuffled(ts, Shuffled(ts, s)) == s && Shuffled(ts, Unshuffled(ts, s)) == s
  {
    hide Transposed, Elements, Remainder;
    var n := Elements(ts, |s|);
    ElementsMake(ts, |s|);
    ElementsOf(ts, |s|);
    var e := s[..n * ts];
    TransposedTwice(e, n, ts);
    TransposedTwice(e, ts, n);
    assert Shuffled(ts, s)[..n * ts] == Transposed(e, n, ts) && Unshuffled(ts, s)[..n * ts] == Transposed(e, ts, n);
    assert e + s[n * ts..] == s;
  }

  /** shuffle_generic_inline: what vector instructions have not shuffled before. */
  method ShuffleGeneric(ts: nat, vectorizable: nat, blocksize: nat, src: array<byte>, sp: nat, dst: array<byte>, dp: nat)
    requires ts > 0 && src != dst && sp + blocksize <= src.Length && dp + blocksize <= dst.Length
    requires vectorizable <= blocksize
    modifies dst
    ensures dst[..dp] == old(dst[..dp]) && dst[dp + blocksize..] == old(dst[dp + blocksize..])
    ensures Remainder(ts, blocksize) <= blocksize
    ensures var whole := blocksize - Remainder(ts, blocksize);
            Before(src[sp..sp + whole], old(dst[dp..dp + whole]), Elements(ts, blocksize), ts, 0, Elements(ts, vectorizable)) ==>
              dst[dp..dp + blocksize] == Shuffled(ts, src[sp..sp + blocksize])
  {
    hide *;
    var n, rem := Elements(ts, blocksize), Remainder(ts, blocksize);
    ElementsMake(ts, blocksize);
    var whole := blocksize - rem;
    FewerElements(ts, vectorizable, blocksize);
    ghost var d0 := dst[..];
    MoveElements(n, ts, 0, Elements(ts, vectorizable), src, sp, dst, dp, whole);
    ghost var d1 := dst[..];
    Memcpy(dst, dp + whole, src, sp + whole, rem);
    RemainderCopied(d0, d1, dst[..], src[..], sp, dp, whole, blocksize);
    IsShuffled(ts, src[sp..sp + blocksize], dst[dp..dp + blocksize], whole);
  }

  /** unshuffle_generic_inline. */
  method UnshuffleGeneric(ts: nat, vectorizable: nat, blocksize: nat, src: array<byte>, sp: nat, dst: array<byte>, dp: nat)
    requires ts > 0 && src != dst && sp + blocksize <= src.Length && dp + blocksize <= dst.Length
    requires vectorizable <= blocksize
    modifies dst
    ensures dst[..dp] == old(dst[..dp]) && dst[dp + blocksize..] == old(dst[dp + blocksize..])
    ensures Remainder(ts, blocksize) <= blocksize
    ensures var whole := blocksize - Remainder(ts, blocksize);
            Before(src[sp..sp + whole], old(dst[dp..dp + whole]), ts, Elements(ts, blocksize), Elements(ts, vectorizable), 0) ==>
              dst[dp..dp + blocksize] == Unshuffled(ts, src[sp..sp + blocksize])
  {
    hide *;
    var n, rem := Elements(ts, blocksize), Remainder(ts, blocksize);
    ElementsMake(ts, blocksize);
    ElementsOf(ts, blocksize);
    var whole := blocksize - rem;
    FewerElements(ts, vectorizable, blocksize);
    ghost var d0 := dst[..];
    MoveElements(ts, n, Elements(ts, vectorizable), 0, src, sp, dst, dp, whole);
    ghost var d1 := dst[..];
    Memcpy(dst, dp + whole, src, sp + whole, rem);
    RemainderCopied(d0, d1, dst[..], src[..], sp, dp, whole, blocksize);
    IsUnshuffled(ts, src[sp..sp + blocksize], dst[dp..dp + blocksize], whole);
  }

  /** The elements have been moved, then the remainder copied. */
  lemma RemainderCopied(d0: seq<byte>, d1: seq<byte>, d2: seq<byte>, s: seq<byte>, sp: nat, dp: nat, whole: nat, n: nat)
    requires |d0| == |d1| == |d2| && whole <= n && dp + n <= |d0| && sp + n <= |s|
    requires d1[..dp] == d0[..dp] && d1[dp + whole..] == d0[dp + whole..]
    requires d2[dp + whole..dp + n] == s[sp + whole..sp + n]
    requires forall k :: 0 <= k < |d1| && !(dp + whole <= k < dp + n) ==> d2[k] == d1[k]
    ensures d2[..dp] == d0[..dp] && d2[dp + n..] == d0[dp + n..]
    ensures d2[dp..dp + n][..whole] == d1[dp..dp + whole] && s[sp..sp + n][..whole] == s[sp..sp + whole]
    ensures d2[dp..dp + n][whole..] == s[sp..sp + n][whole..]
  {
    SliceInSlice(d2, dp, dp + n, whole, n);
    SliceInSlice(s, sp, sp + n, whole, n);
    assert d2[..dp] == d1[..dp];
    assert d2[dp + n..] == d1[dp + whole..][n - whole..] && d0[dp + n..] == d0[dp + whole..][n - whole..];
  }

  lemma FewerElements(ts: nat, a: nat, b: nat)
    requires ts > 0 && a <= b
    ensures Elements(ts, a) <= Elements(ts, b)
  {
    assert a == ts * (a / ts) + a % ts && b == ts * (b / ts) + b % ts;
    TimesAtLeast(a / ts - b / ts, ts);
    assert (a / ts - b / ts) * ts == ts * (a / ts) - ts * (b / ts);
  }
}
