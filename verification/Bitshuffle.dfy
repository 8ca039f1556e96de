/** The bit shuffle: the scalar kernels (c-blosc2/blosc/bitshuffle-generic.c:12-220). Every
    stage moves bytes or bits of a matrix; At(i, m, j) is row i, column j. */
module Bitshuffle {
  import opened Bytes
  import opened Arithmetic
  import opened Bits
  import opened Shuffle

  // ----- Bytes within elements, eight rows at a time -----

  /** The first `i` rows, rounded to groups of eight, are in their place; of the group at
      `i` the columns before `j`, and of column `j` the first `k` rows. */
  ghost predicate MovedEights(s: seq<byte>, d: seq<byte>, n: nat, m: nat, i: nat, j: nat, k: nat) {
    && |s| == |d| == n * m
    && forall i2: nat, j2: nat :: i2 < n && j2 < m && (i2 < i || (i2 < i + 8 && (j2 < j || (j2 == j && i2 < i + k)))) ==>
         At(j2, n, i2) < |d| && At(i2, m, j2) < |s| && d[At(j2, n, i2)] == s[At(i2, m, j2)]
  }

  lemma MoveOneOfEight(s: seq<byte>, d: seq<byte>, n: nat, m: nat, i: nat, j: nat, k: nat)
    requires MovedEights(s, d, n, m, i, j, k) && i + k < n && j < m && k < 8
    ensures At(j, n, i + k) < |d| && At(i + k, m, j) < |s|
    ensures MovedEights(s, d[At(j, n, i + k) := s[At(i + k, m, j)]], n, m, i, j, k + 1)
  {
    hide At;
    AtFits(m, j, n, i + k);
    AtFits(n, i + k, m, j);
    AtAllDiffer(j, n, i + k);
  }

  lemma AllMovedEights(s: seq<byte>, d: seq<byte>, n: nat, m: nat)
    requires MovedEights(s, d, n, m, n, 0, 0)
    ensures d == Transposed(s, n, m)
  {
    hide At, Transposed;
    TransposedDecides(s, d, n, m);
  }

  /** The loops of bshuf_trans_byte_elem_remainder for a number of rows divisible by
      eight, and of bshuf_trans_byte_bitrow_scal. */
  method MoveEights(n: nat, m: nat, src: array<byte>, sp: nat, dst: array<byte>, dp: nat, ghost len: nat)
    requires src != dst && sp + len <= src.Length && dp + len <= dst.Length && len == n * m && n % 8 == 0
    modifies dst
    ensures dst[..dp] == old(dst[..dp]) && dst[dp + len..] == old(dst[dp + len..])
    ensures dst[dp..dp + len] == Transposed(src[sp..sp + len], n, m)
  {
    hide At, Transposed;
    ghost var s := src[sp..sp + len];
    var i: nat := 0;
    while i + 7 < n
      invariant i <= n && i % 8 == 0
      invariant MovedEights(s, dst[dp..dp + len], n, m, i, 0, 0)
      invariant dst[..dp] == old(dst[..dp]) && dst[dp + len..] == old(dst[dp + len..])
    {
      for j := 0 to m
        invariant MovedEights(s, dst[dp..dp + len], n, m, i, j, 0)
        invariant dst[..dp] == old(dst[..dp]) && dst[dp + len..] == old(dst[dp + len..])
      {
        for k := 0 to 8
          invariant MovedEights(s, dst[dp..dp + len], n, m, i, j, k)
          invariant dst[..dp] == old(dst[..dp]) && dst[dp + len..] == old(dst[dp + len..])
        {
          ghost var d := dst[dp..dp + len];
          MoveOneOfEight(s, d, n, m, i, j, k);
          dst[dp + At(j, n, i + k)] := src[sp + At(i + k, m, j)];
          assert dst[dp..dp + len] == d[At(j, n, i + k) := s[At(i + k, m, j)]];
        }
      }
      i := i + 8;
    }
    AllMovedEights(s, dst[dp..dp + len], n, m);
  }

  // ----- Bits within bytes -----

  /** Byte `k` of the transpose of the eight bytes at `p`. */
  function Slice(s: seq<byte>, p: nat, k: nat): byte
    requires p + 8 <= |s|
  {
    Low(Shifted(Transpose(Load(s[p..p + 8])), k))
  }

  lemma SliceBit(s: seq<byte>, p: nat, k: nat, r: nat)
    requires p + 8 <= |s| && k < 8 && r < 8
    ensures Bit(Slice(s, p, k), r) <==> Bit(s[p + r], k)
  {
    hide Bit, Low, Shifted, Transpose, Load;
    TransposedByte(s[p..p + 8], k, r);
  }

  /** Row `k` of the output has, for the groups before `q` and for group `q` as far as
      `k`, the bits `k` of the group. */
  ghost predicate Sliced(s: seq<byte>, d: seq<byte>, groups: nat, q: nat, k: nat) {
    && |s| == |d| == 8 * groups
    && forall q2: nat, k2: nat :: q2 < groups && k2 < 8 && (q2 < q || (q2 == q && k2 < k)) ==>
         At(k2, groups, q2) < |d| && d[At(k2, groups, q2)] == Slice(s, 8 * q2, k2)
  }

  lemma SliceOne(s: seq<byte>, d: seq<byte>, groups: nat, q: nat, k: nat)
    requires Sliced(s, d, groups, q, k) && q < groups && k < 8
    ensures At(k, groups, q) < |d|
    ensures Sliced(s, d[At(k, groups, q) := Slice(s, 8 * q, k)], groups, q, k + 1)
  {
    hide At, Slice;
    AtFits(8, k, groups, q);
    AtAllDiffer(k, groups, q);
  }

  /** bshuf_trans_bit_byte_remainder. */
  method TransBitByte(groups: nat, src: array<byte>, sp: nat, dst: array<byte>, dp: nat, ghost len: nat)
    requires src != dst && sp + len <= src.Length && dp + len <= dst.Length && len == 8 * groups
    modifies dst
    ensures dst[..dp] == old(dst[..dp]) && dst[dp + len..] == old(dst[dp + len..])
    ensures Sliced(src[sp..sp + len], dst[dp..dp + len], groups, groups, 0)
  {
    hide At, Transpose, Load, Low;
    ghost var s := src[sp..sp + len];
    for q := 0 to groups
      invariant Sliced(s, dst[dp..dp + len], groups, q, 0)
      invariant dst[..dp] == old(dst[..dp]) && dst[dp + len..] == old(dst[dp + len..])
    {
      ghost var w := Transpose(Load(s[8 * q..8 * q + 8]));
      assert src[sp + 8 * q..sp + 8 * q + 8] == s[8 * q..8 * q + 8];
      var x := Transpose(Load(src[sp + 8 * q..sp + 8 * q + 8]));
      for k := 0 to 8
        invariant Sliced(s, dst[dp..dp + len], groups, q, k) && x == Shifted(w, k)
        invariant dst[..dp] == old(dst[..dp]) && dst[dp + len..] == old(dst[dp + len..])
      {
        ghost var d := dst[dp..dp + len];
        SliceOne(s, d, groups, q, k);
        dst[dp + At(k, groups, q)] := Low(x);
        assert dst[dp..dp + len] == d[At(k, groups, q) := Slice(s, 8 * q, k)];
        x := Shr(x, 8);
      }
    }
  }

  // ----- Rows of bits -----

  /** Where cell number `c` begins, when cells have `w` bytes. */
  function Start(c: nat, w: nat): nat {
    c * w
  }

  /** Cells of `w` bytes: the cells of the first `i` rows, and of row `i` those before
      `j`, are in their place. */
  ghost predicate MovedCells(s: seq<byte>, d: seq<byte>, n: nat, m: nat, w: nat, i: nat, j: nat) {
    && |s| == |d| == n * m * w
    && forall i2: nat, j2: nat :: i2 < n && j2 < m && (i2 < i || (i2 == i && j2 < j)) ==>
         && Start(At(j2, n, i2), w) + w <= |d| && Start(At(i2, m, j2), w) + w <= |s|
         && d[Start(At(j2, n, i2), w)..Start(At(j2, n, i2), w) + w]
            == s[Start(At(i2, m, j2), w)..Start(At(i2, m, j2), w) + w]
  }

  lemma CellFits(n: nat, m: nat, i: nat, j: nat, w: nat)
    requires i < n && j < m
    ensures Start(At(i, m, j), w) + w <= n * m * w && Start(At(j, n, i), w) + w <= n * m * w
  {
    AtFits(n, i, m, j);
    AtFits(m, j, n, i);
    assert m * n == n * m;
    ProductGrows(At(i, m, j) + 1, n * m, w);
    ProductGrows(At(j, n, i) + 1, n * m, w);
  }

  lemma CellsApart(c: nat, c2: nat, w: nat)
    requires c != c2
    ensures Start(c, w) + w <= Start(c2, w) || Start(c2, w) + w <= Start(c, w)
  {
    ProductGrows(c + 1, c2, w);
    ProductGrows(c2 + 1, c, w);
  }

  /** Only the stretch of `w` elements at `at` may differ. */
  ghost predicate SameBut(d: seq<byte>, d': seq<byte>, at: nat, w: nat) {
    |d| == |d'| && forall k :: 0 <= k < |d| && !(at <= k < at + w) ==> d'[k] == d[k]
  }

  lemma MoveOneCell(s: seq<byte>, d: seq<byte>, d': seq<byte>, n: nat, m: nat, w: nat, i: nat, j: nat)
    requires MovedCells(s, d, n, m, w, i, j) && i < n && j < m && |d'| == |d|
    requires Start(At(j, n, i), w) + w <= |d| && Start(At(i, m, j), w) + w <= |s|
    requires d'[Start(At(j, n, i), w)..Start(At(j, n, i), w) + w] == s[Start(At(i, m, j), w)..Start(At(i, m, j), w) + w]
    requires SameBut(d, d', Start(At(j, n, i), w), w)
    ensures MovedCells(s, d', n, m, w, i, j + 1)
  {
    hide At, Start;
    forall i2: nat, j2: nat | i2 < n && j2 < m && (i2 < i || (i2 == i && j2 < j))
      ensures Start(At(j2, n, i2), w) + w <= |d|
      ensures d'[Start(At(j2, n, i2), w)..Start(At(j2, n, i2), w) + w]
           == d[Start(At(j2, n, i2), w)..Start(At(j2, n, i2), w) + w]
    {
      AtDiffers(j2, n, i2, j, i);
      CellsApart(At(j2, n, i2), At(j, n, i), w);
    }
  }

  /** bshuf_trans_elem. */
  method TransElem(n: nat, m: nat, w: nat, src: array<byte>, sp: nat, dst: array<byte>, dp: nat, ghost len: nat)
    requires src != dst && sp + len <= src.Length && dp + len <= dst.Length && len == n * m * w
    modifies dst
    ensures dst[..dp] == old(dst[..dp]) && dst[dp + len..] == old(dst[dp + len..])
    ensures MovedCells(src[sp..sp + len], dst[dp..dp + len], n, m, w, n, 0)
  {
    hide *;
    ghost var s := src[sp..sp + len];
    NoCellsMoved(s, dst[dp..dp + len], n, m, w);
    for i := 0 to n
      invariant MovedCells(s, dst[dp..dp + len], n, m, w, i, 0)
      invariant dst[..dp] == old(dst[..dp]) && dst[dp + len..] == old(dst[dp + len..])
    {
      for j := 0 to m
        invariant MovedCells(s, dst[dp..dp + len], n, m, w, i, j)
        invariant dst[..dp] == old(dst[..dp]) && dst[dp + len..] == old(dst[dp + len..])
      {
        CellFits(n, m, i, j, w);
        ghost var pre, d := dst[..], dst[dp..dp + len];
        var to, from := Start(At(j, n, i), w), Start(At(i, m, j), w);
        Memcpy(dst, dp + to, src, sp + from, w);
        CellMoved(src[..], sp, pre, dst[..], dp, len, from, to, w);
        MoveOneCell(s, d, dst[dp..dp + len], n, m, w, i, j);
      }
      RowOfCellsMoved(s, dst[dp..dp + len], n, m, w, i);
    }
  }

  lemma NoCellsMoved(s: seq<byte>, d: seq<byte>, n: nat, m: nat, w: nat)
    requires |s| == |d| == n * m * w
    ensures MovedCells(s, d, n, m, w, 0, 0)
  {
  }

  lemma RowOfCellsMoved(s: seq<byte>, d: seq<byte>, n: nat, m: nat, w: nat, i: nat)
    requires MovedCells(s, d, n, m, w, i, m)
    ensures MovedCells(s, d, n, m, w, i + 1, 0)
  {
    hide At, Start;
  }

  /** A cell moved within larger stretches of two arrays. */
  lemma CellMoved(src: seq<byte>, sp: nat, d: seq<byte>, d': seq<byte>, dp: nat, len: nat, from: nat, to: nat, w: nat)
    requires sp + len <= |src| && dp + len <= |d| && from + w <= len && to + w <= len
    requires SameBut(d, d', dp + to, w) && d'[dp + to..dp + to + w] == src[sp + from..sp + from + w]
    ensures d'[..dp] == d[..dp] && d'[dp + len..] == d[dp + len..]
    ensures SameBut(d[dp..dp + len], d'[dp..dp + len], to, w)
    ensures d'[dp..dp + len][to..to + w] == src[sp..sp + len][from..from + w]
  {
    SliceInSlice(d', dp, dp + len, to, to + w);
    SliceInSlice(src, sp, sp + len, from, from + w);
  }

  // ----- The bit shuffle -----

  /** Bit `k` of byte `j` of element `8 * q + r` is bit `r` of byte `q` of row `8 * j + k`:
      the rows have one bit of every element. There are `8 * rows` elements of `es`
      bytes, and a row has `rows` bytes. */
  ghost predicate BitRows(a: seq<byte>, b: seq<byte>, rows: nat, es: nat) {
    && |a| == |b| == 8 * rows * es
    && forall q: nat, r: nat, j: nat, k: nat :: q < rows && r < 8 && j < es && k < 8 ==> BitMoved(a, b, rows, es, q, r, j, k)
  }

  ghost predicate BitMoved(a: seq<byte>, b: seq<byte>, rows: nat, es: nat, q: nat, r: nat, j: nat, k: nat)
    requires r < 8 && k < 8
  {
    && At(8 * q + r, es, j) < |a| && At(8 * j + k, rows, q) < |b|
    && (Bit(b[At(8 * j + k, rows, q)], r) <==> Bit(a[At(8 * q + r, es, j)], k))
  }

  /** The three stages of bshuf_trans_bit_elem_scal make the rows of bits. */
  lemma StagesMakeRows(a: seq<byte>, b: seq<byte>, c: seq<byte>, d: seq<byte>, rows: nat, es: nat)
    requires |a| == 8 * rows * es && b == Transposed(a, 8 * rows, es)
    requires Sliced(b, c, rows * es, rows * es, 0) && MovedCells(c, d, 8, es, rows, 8, 0)
    ensures BitRows(a, d, rows, es)
  {
    hide At, Start, Bit, Slice, Transposed;
    forall q: nat, r: nat, j: nat, k: nat | q < rows && r < 8 && j < es && k < 8
      ensures BitMoved(a, d, rows, es, q, r, j, k)
    {
      StagesMoveBit(a, b, c, d, rows, es, q, r, j, k);
    }
  }

  /** The same byte, found by way of its cell and of its group of eight. */
  lemma SamePlaces(rows: nat, es: nat, q: nat, r: nat, j: nat, k: nat)
    ensures Start(At(j, 8, k), rows) + q == At(8 * j + k, rows, q)
    ensures Start(At(k, es, j), rows) + q == At(k, rows * es, At(j, rows, q))
    ensures 8 * At(j, rows, q) + r == At(j, 8 * rows, 8 * q + r)
  {
    assert (k * es + j) * rows == k * (rows * es) + j * rows by {
      assert (k * es + j) * rows == k * es * rows + j * rows;
    }
    assert j * (8 * rows) == 8 * (j * rows);
  }

  lemma StagesMoveBit(a: seq<byte>, b: seq<byte>, c: seq<byte>, d: seq<byte>, rows: nat, es: nat,
                      q: nat, r: nat, j: nat, k: nat)
    requires |a| == 8 * rows * es && b == Transposed(a, 8 * rows, es)
    requires Sliced(b, c, rows * es, rows * es, 0) && MovedCells(c, d, 8, es, rows, 8, 0)
    requires q < rows && r < 8 && j < es && k < 8
    ensures BitMoved(a, d, rows, es, q, r, j, k)
  {
    hide At, Start, Bit, Slice, Transposed;
    SamePlaces(rows, es, q, r, j, k);
    AtFits(es, j, rows, q);
    assert es * rows == rows * es;
    var g, at := At(j, rows, q), Start(At(j, 8, k), rows);
    var from := Start(At(k, es, j), rows);
    assert d[at..at + rows] == c[from..from + rows];
    assert d[at + q] == d[at..at + rows][q] && c[from + q] == c[from..from + rows][q];
    assert c[At(k, rows * es, g)] == Slice(b, 8 * g, k);
    SliceBit(b, 8 * g, k, r);
    TransposedAt(a, 8 * rows, es, 8 * q + r, j);
  }

  /** bshuf_trans_bit_elem_scal: the bit shuffle of `size` elements, by way of a scratch
      buffer; -80 and nothing done if the number of elements is not divisible by eight. */
  method TransBitElem(size: nat, es: nat, src: array<byte>, sp: nat, dst: array<byte>, dp: nat, tmp: array<byte>, ghost len: nat)
    returns (count: int)
    requires len == size * es && sp + len <= src.Length && dp + len <= dst.Length && len <= tmp.Length
    requires src != dst && tmp != dst && tmp != src
    modifies dst, tmp
    ensures count == if size % 8 == 0 then size * es else -80
    ensures dst[..dp] == old(dst[..dp]) && dst[dp + len..] == old(dst[dp + len..])
    ensures size % 8 == 0 ==> BitRows(src[sp..sp + len], dst[dp..dp + len], size / 8, es)
    ensures size % 8 != 0 ==> unchanged(dst)
  {
    hide At, Start, Transposed;
    if size % 8 != 0 {
      return -80;
    }
    ghost var rows := size / 8;
    RowsMake(size, es, len);
    MoveEights(size, es, src, sp, dst, dp, len);
    ghost var b := dst[dp..dp + len];
    TransBitByte(size / 8 * es, dst, dp, tmp, 0, len);
    ghost var c := tmp[0..0 + len];
    TransElem(8, es, size / 8, tmp, 0, dst, dp, len);
    StagesMakeRows(src[sp..sp + len], b, c, dst[dp..dp + len], rows, es);
    count := size * es;
  }

  lemma RowsMake(size: nat, es: nat, len: nat)
    requires size % 8 == 0 && len == size * es
    ensures len == 8 * (size / 8) * es == 8 * es * (size / 8) == 8 * (size / 8 * es) == (8 * es) * (size / 8)
  {
    assert 8 * (size / 8) == size;
  }

  // ----- And back -----

  /** The groups of eight bytes have been spread over eight elements: for the columns
      before `j` all of them, and of column `j` those before `q`, and `k` bytes of that. */
  ghost predicate Spread(s: seq<byte>, d: seq<byte>, rows: nat, es: nat, j: nat, q: nat, k: nat) {
    && |s| == |d| == 8 * es * rows
    && forall j2: nat, q2: nat, k2: nat ::
         j2 < es && q2 < rows && k2 < 8 && (j2 < j || (j2 == j && (q2 < q || (q2 == q && k2 < k)))) ==>
           SpreadOne(s, d, es, j2, q2, k2)
  }

  ghost predicate SpreadOne(s: seq<byte>, d: seq<byte>, es: nat, j: nat, q: nat, k: nat) {
    && At(8 * q + k, es, j) < |d| && At(q, 8 * es, 8 * j) + 8 <= |s|
    && d[At(8 * q + k, es, j)] == Slice(s, At(q, 8 * es, 8 * j), k)
  }

  lemma GroupFits(rows: nat, es: nat, q: nat, j: nat)
    requires q < rows && j < es
    ensures At(q, 8 * es, 8 * j) + 8 <= 8 * es * rows
  {
    ProductGrows(q + 1, rows, 8 * es);
  }

  lemma SpreadNext(s: seq<byte>, d: seq<byte>, rows: nat, es: nat, j: nat, q: nat, k: nat)
    requires Spread(s, d, rows, es, j, q, k) && j < es && q < rows && k < 8
    ensures At(8 * q + k, es, j) < |d| && At(q, 8 * es, 8 * j) + 8 <= |s|
    ensures Spread(s, d[At(8 * q + k, es, j) := Slice(s, At(q, 8 * es, 8 * j), k)], rows, es, j, q, k + 1)
  {
    hide At, Slice;
    GroupFits(rows, es, q, j);
    assert 8 * rows * es == 8 * es * rows;
    AtFits(8 * rows, 8 * q + k, es, j);
    var d' := d[At(8 * q + k, es, j) := Slice(s, At(q, 8 * es, 8 * j), k)];
    forall j2: nat, q2: nat, k2: nat |
      j2 < es && q2 < rows && k2 < 8 && (j2 < j || (j2 == j && (q2 < q || (q2 == q && k2 < k))))
      ensures SpreadOne(s, d', es, j2, q2, k2)
    {
      assert SpreadOne(s, d, es, j2, q2, k2);
      AtDiffers(8 * q2 + k2, es, j2, 8 * q + k, j);
    }
  }

  /** bshuf_shuffle_bit_eightelem_scal. */
  method ShuffleBitEightElem(rows: nat, es: nat, src: array<byte>, sp: nat, dst: array<byte>, dp: nat, ghost len: nat)
    requires src != dst && sp + len <= src.Length && dp + len <= dst.Length && len == 8 * es * rows
    modifies dst
    ensures dst[..dp] == old(dst[..dp]) && dst[dp + len..] == old(dst[dp + len..])
    ensures Spread(src[sp..sp + len], dst[dp..dp + len], rows, es, es, 0, 0)
  {
    hide At, Transpose, Load, Low;
    ghost var s := src[sp..sp + len];
    for j := 0 to es
      invariant Spread(s, dst[dp..dp + len], rows, es, j, 0, 0)
      invariant dst[..dp] == old(dst[..dp]) && dst[dp + len..] == old(dst[dp + len..])
    {
      for q := 0 to rows
        invariant Spread(s, dst[dp..dp + len], rows, es, j, q, 0)
        invariant dst[..dp] == old(dst[..dp]) && dst[dp + len..] == old(dst[dp + len..])
      {
        var p := At(q, 8 * es, 8 * j);
        GroupFits(rows, es, q, j);
        SliceInSlice(src[..], sp, sp + len, p, p + 8);
        var x := Transpose(Load(src[sp + p..sp + p + 8]));
        ghost var w := x;
        for k := 0 to 8
          invariant Spread(s, dst[dp..dp + len], rows, es, j, q, k) && x == Shifted(w, k)
          invariant dst[..dp] == old(dst[..dp]) && dst[dp + len..] == old(dst[dp + len..])
        {
          ghost var d := dst[dp..dp + len];
          SpreadNext(s, d, rows, es, j, q, k);
          dst[dp + At(8 * q + k, es, j)] := Low(x);
          assert dst[dp..dp + len] == d[At(8 * q + k, es, j) := Slice(s, p, k)];
          x := Shr(x, 8);
        }
      }
    }
  }

  /** The two stages of bshuf_untrans_bit_elem_scal make elements out of rows of bits. */
  lemma StagesUnmakeRows(a: seq<byte>, b: seq<byte>, c: seq<byte>, rows: nat, es: nat)
    requires |a| == 8 * es * rows && b == Transposed(a, 8 * es, rows)
    requires Spread(b, c, rows, es, es, 0, 0)
    ensures BitRows(c, a, rows, es)
  {
    hide At, Bit, Slice, Transposed;
    assert 8 * rows * es == 8 * es * rows;
    forall q: nat, r: nat, j: nat, k: nat | q < rows && r < 8 && j < es && k < 8
      ensures BitMoved(c, a, rows, es, q, r, j, k)
    {
      GroupFits(rows, es, q, j);
      assert SpreadOne(b, c, es, j, q, r);
      SliceBit(b, At(q, 8 * es, 8 * j), r, k);
      TransposedAt(a, 8 * es, rows, 8 * j + k, q);
      SameGroup(q, 8 * es, 8 * j, k);
    }
  }

  lemma SameGroup(q: nat, m: nat, j: nat, k: nat)
    ensures At(q, m, j) + k == At(q, m, j + k)
  {
  }

  /** bshuf_untrans_bit_elem_scal: needs a scratch buffer that is not the source. */
  method UntransBitElem(size: nat, es: nat, src: array<byte>, sp: nat, dst: array<byte>, dp: nat, tmp: array<byte>, ghost len: nat)
    returns (count: int)
    requires len == size * es && sp + len <= src.Length && dp + len <= dst.Length && len <= tmp.Length
    requires tmp != src && tmp != dst
    modifies dst, tmp
    ensures count == if size % 8 == 0 then size * es else -80
    ensures dst[..dp] == old(dst[..dp]) && dst[dp + len..] == old(dst[dp + len..])
    ensures size % 8 == 0 ==> BitRows(dst[dp..dp + len], old(src[sp..sp + len]), size / 8, es)
    ensures size % 8 != 0 ==> unchanged(dst)
  {
    hide At, Transposed;
    if size % 8 != 0 {
      return -80;
    }
    RowsMake(size, es, len);
    MoveEights(8 * es, size / 8, src, sp, tmp, 0, len);
    ghost var b := tmp[0..0 + len];
    ShuffleBitEightElem(size / 8, es, tmp, 0, dst, dp, len);
    StagesUnmakeRows(old(src[sp..sp + len]), b, dst[dp..dp + len], size / 8, es);
    count := size * es;
  }

  // ----- When the scratch buffer is the source -----

  /** The first `k` moves of a group of eight rows from row `i` on, in column `j`. */
  ghost function SweptGroup(s: seq<byte>, n: nat, m: nat, i: nat, j: nat, k: nat): (d: seq<byte>)
    requires |s| == n * m && i + k <= n && j < m
    ensures |d| == |s|
  {
    if k == 0 then s
    else
      var t := SweptGroup(s, n, m, i, j, k - 1);
      AtFits(n, i + k - 1, m, j);
      AtFits(m, j, n, i + k - 1);
      t[At(j, n, i + k - 1) := t[At(i + k - 1, m, j)]]
  }

  /** The first `j` columns of a group. */
  ghost function SweptColumns(s: seq<byte>, n: nat, m: nat, i: nat, j: nat): (d: seq<byte>)
    requires |s| == n * m && i + 8 <= n && j <= m
    ensures |d| == |s|
  {
    if j == 0 then s else SweptGroup(SweptColumns(s, n, m, i, j - 1), n, m, i, j - 1, 8)
  }

  /** What the moves make of a matrix that they overwrite as they go. */
  ghost function Swept(s: seq<byte>, n: nat, m: nat, groups: nat): (d: seq<byte>)
    requires |s| == n * m && 8 * groups <= n
    ensures |d| == |s|
  {
    if groups == 0 then s else SweptColumns(Swept(s, n, m, groups - 1), n, m, 8 * (groups - 1), m)
  }

  /** One move, and what it leaves alone. */
  method SweepMove(n: nat, m: nat, i: nat, j: nat, a: array<byte>, ap: nat, ghost len: nat)
    requires ap + len <= a.Length && len == n * m && i < n && j < m
    modifies a
    ensures At(j, n, i) < len && At(i, m, j) < len
    ensures a[ap..ap + len] == old(a[ap..ap + len])[At(j, n, i) := old(a[ap..ap + len])[At(i, m, j)]]
    ensures forall k :: 0 <= k < a.Length && !(ap <= k < ap + len) ==> a[k] == old(a[k])
  {
    hide At;
    AtFits(n, i, m, j);
    AtFits(m, j, n, i);
    a[ap + At(j, n, i)] := a[ap + At(i, m, j)];
  }

  /** bshuf_trans_byte_bitrow_scal when the output is the input. */
  method SweepEights(groups: nat, m: nat, a: array<byte>, ap: nat, ghost len: nat)
    requires ap + len <= a.Length && len == 8 * groups * m
    modifies a
    ensures forall k :: 0 <= k < a.Length && !(ap <= k < ap + len) ==> a[k] == old(a[k])
    ensures a[ap..ap + len] == Swept(old(a[ap..ap + len]), 8 * groups, m, groups)
  {
    hide *;
    ghost var s := a[ap..ap + len];
    var n := 8 * groups;
    SweptNone(s, n, m);
    for g := 0 to groups
      invariant a[ap..ap + len] == Swept(s, n, m, g)
      invariant forall k :: 0 <= k < a.Length && !(ap <= k < ap + len) ==> a[k] == old(a[k])
    {
      SweepColumns(groups, g, m, a, ap, len);
      SweptNext(s, n, m, g);
    }
  }

  /** The columns of one group of eight rows. */
  method SweepColumns(groups: nat, g: nat, m: nat, a: array<byte>, ap: nat, ghost len: nat)
    requires ap + len <= a.Length && len == 8 * groups * m && g < groups
    modifies a
    ensures forall k :: 0 <= k < a.Length && !(ap <= k < ap + len) ==> a[k] == old(a[k])
    ensures a[ap..ap + len] == SweptColumns(old(a[ap..ap + len]), 8 * groups, m, 8 * g, m)
  {
    hide *;
    ghost var s := a[ap..ap + len];
    var n := 8 * groups;
    SweptNone(s, n, m);
    for j := 0 to m
      invariant a[ap..ap + len] == SweptColumns(s, n, m, 8 * g, j)
      invariant forall k :: 0 <= k < a.Length && !(ap <= k < ap + len) ==> a[k] == old(a[k])
    {
      ghost var t := a[ap..ap + len];
      SweptNone(t, n, m);
      for k := 0 to 8
        invariant a[ap..ap + len] == SweptGroup(t, n, m, 8 * g, j, k)
        invariant forall k :: 0 <= k < a.Length && !(ap <= k < ap + len) ==> a[k] == old(a[k])
      {
        SweptMove(t, n, m, 8 * g, j, k);
        SweepMove(n, m, 8 * g + k, j, a, ap, len);
      }
      SweptColumn(s, n, m, 8 * g, j);
    }
  }

  lemma SweptNone(s: seq<byte>, n: nat, m: nat)
    requires |s| == n * m
    ensures Swept(s, n, m, 0) == s
    ensures forall i: nat :: i + 8 <= n ==> SweptColumns(s, n, m, i, 0) == s
    ensures forall i: nat, j: nat :: i <= n && j < m ==> SweptGroup(s, n, m, i, j, 0) == s
  {
  }

  lemma SweptMove(s: seq<byte>, n: nat, m: nat, i: nat, j: nat, k: nat)
    requires |s| == n * m && i + k < n && j < m
    ensures At(j, n, i + k) < n * m && At(i + k, m, j) < n * m
    ensures var t := SweptGroup(s, n, m, i, j, k);
            SweptGroup(s, n, m, i, j, k + 1) == t[At(j, n, i + k) := t[At(i + k, m, j)]]
  {
    hide At;
    AtFits(n, i + k, m, j);
    AtFits(m, j, n, i + k);
  }

  lemma SweptColumn(s: seq<byte>, n: nat, m: nat, i: nat, j: nat)
    requires |s| == n * m && i + 8 <= n && j < m
    ensures SweptColumns(s, n, m, i, j + 1) == SweptGroup(SweptColumns(s, n, m, i, j), n, m, i, j, 8)
  {
  }

  lemma SweptNext(s: seq<byte>, n: nat, m: nat, groups: nat)
    requires |s| == n * m && 8 * groups + 8 <= n
    ensures Swept(s, n, m, groups + 1) == SweptColumns(Swept(s, n, m, groups), n, m, 8 * groups, m)
  {
  }

  /** With two columns or more, the second byte is overwritten before it is read. */
  lemma SecondByteUnread(s: seq<byte>, x: byte, n: nat, m: nat)
    requires |s| == n * m && m >= 2 && n >= 8
    ensures |s| >= 2 && SweptGroup(s[1 := x], n, m, 0, 0, 2) == SweptGroup(s, n, m, 0, 0, 2)
  {
    ProductGrows(8, n, m);
    SweptMove(s, n, m, 0, 0, 0);
    SweptMove(s, n, m, 0, 0, 1);
    SweptMove(s[1 := x], n, m, 0, 0, 0);
    SweptMove(s[1 := x], n, m, 0, 0, 1);
  }

  lemma {:induction false} SameGroups(s: seq<byte>, s2: seq<byte>, n: nat, m: nat, k: nat)
    requires |s| == |s2| == n * m && m >= 2 && n >= 8 && 2 <= k <= 8
    requires SweptGroup(s, n, m, 0, 0, 2) == SweptGroup(s2, n, m, 0, 0, 2)
    ensures SweptGroup(s, n, m, 0, 0, k) == SweptGroup(s2, n, m, 0, 0, k)
  {
    hide At;
    if k > 2 {
      SameGroups(s, s2, n, m, k - 1);
    }
  }

  lemma {:induction false} SameColumns(s: seq<byte>, s2: seq<byte>, n: nat, m: nat, j: nat)
    requires |s| == |s2| == n * m && m >= 2 && n >= 8 && 1 <= j <= m
    requires SweptGroup(s, n, m, 0, 0, 8) == SweptGroup(s2, n, m, 0, 0, 8)
    ensures SweptColumns(s, n, m, 0, j) == SweptColumns(s2, n, m, 0, j)
  {
    hide SweptGroup;
    if j > 1 {
      SameColumns(s, s2, n, m, j - 1);
    } else {
      SweptColumn(s, n, m, 0, 0);
      SweptColumn(s2, n, m, 0, 0);
      SweptNone(s, n, m);
      SweptNone(s2, n, m);
    }
  }

  lemma {:induction false} SameSwept(s: seq<byte>, s2: seq<byte>, n: nat, m: nat, groups: nat)
    requires |s| == |s2| == n * m && m >= 2 && 1 <= groups && 8 * groups <= n
    requires SweptColumns(s, n, m, 0, m) == SweptColumns(s2, n, m, 0, m)
    ensures Swept(s, n, m, groups) == Swept(s2, n, m, groups)
  {
    hide SweptColumns;
    if groups > 1 {
      SameSwept(s, s2, n, m, groups - 1);
    } else {
      SweptNext(s, n, m, 0);
      SweptNext(s2, n, m, 0);
    }
  }

  /** Whatever the second byte was, the result is the same. */
  lemma SecondByteLost(s: seq<byte>, x: byte, m: nat, groups: nat)
    requires |s| == 8 * groups * m && m >= 2 && groups >= 1
    ensures |s| >= 2 && Swept(s[1 := x], 8 * groups, m, groups) == Swept(s, 8 * groups, m, groups)
  {
    hide Swept, SweptColumns, SweptGroup;
    var n := 8 * groups;
    SecondByteUnread(s, x, n, m);
    SameGroups(s[1 := x], s, n, m, 8);
    SameColumns(s[1 := x], s, n, m, m);
    SameSwept(s[1 := x], s, n, m, groups);
  }

  /** A single column stays where it is. */
  lemma {:induction false} OneColumnStays(s: seq<byte>, n: nat, groups: nat, k: nat)
    requires |s| == n * 1 && 8 * groups <= n && k <= 8
    ensures Swept(s, n, 1, groups) == s
    ensures 8 * groups + k <= n ==> SweptGroup(s, n, 1, 8 * groups, 0, k) == s
    decreases groups, k
  {
    if k > 0 {
      OneColumnStays(s, n, groups, k - 1);
    } else if groups > 0 {
      OneColumnStays(s, n, groups - 1, 8);
      SweptColumn(s, n, 1, 8 * (groups - 1), 0);
      SweptNone(s, n, 1);
    }
  }

  /** Exactly with eight elements, or none, the source can be its own scratch: that is when
      the moves, overwriting what they read, still transpose every matrix. */
  lemma OwnScratchExactly(rows: nat, es: nat)
    requires es > 0
    ensures (forall a: seq<byte> :: |a| == 8 * es * rows ==> Swept(a, 8 * es, rows, es) == Transposed(a, 8 * es, rows)) <==> rows <= 1
  {
    hide Swept, Transposed;
    if rows <= 1 {
      forall a: seq<byte> | |a| == 8 * es * rows
        ensures Swept(a, 8 * es, rows, es) == Transposed(a, 8 * es, rows)
      {
        SweptIsTransposed(a, es, rows);
      }
    } else {
      ProductGrows(8, 8 * es, rows);
      var a := seq(8 * es * rows, _ => 0 as byte);
      SecondByteLost(a, 1, rows, es);
      TransposedTwice(a, 8 * es, rows);
      TransposedTwice(a[1 := 1], 8 * es, rows);
      assert a[1] == 0 && a[1 := 1][1] == 1;
      assert Swept(a, 8 * es, rows, es) != Transposed(a, 8 * es, rows)
          || Swept(a[1 := 1], 8 * es, rows, es) != Transposed(a[1 := 1], 8 * es, rows);
    }
  }

  lemma SweptIsTransposed(a: seq<byte>, es: nat, rows: nat)
    requires rows <= 1 && |a| == 8 * es * rows
    ensures Swept(a, 8 * es, rows, es) == Transposed(a, 8 * es, rows)
  {
    hide Swept;
    if rows == 1 {
      OneColumnStays(a, 8 * es, es, 0);
      forall i, j | 0 <= i < 8 * es && 0 <= j < 1
        ensures At(j, 8 * es, i) < 8 * es * 1 && At(i, 1, j) < 8 * es * 1 && a[At(j, 8 * es, i)] == a[At(i, 1, j)]
      {
      }
      TransposedDecides(a, a, 8 * es, 1);
    }
  }

  /** bshuf_untrans_bit_elem_scal when the source is given as the scratch buffer. */
  method UntransInPlace(size: nat, es: nat, src: array<byte>, sp: nat, dst: array<byte>, dp: nat, ghost len: nat)
    requires len == size * es && sp + len <= src.Length && dp + len <= dst.Length
    requires src != dst && size % 8 == 0 && es > 0
    modifies src, dst
    ensures |old(src[sp..sp + len])| == 8 * es * (size / 8)
    ensures Spread(Swept(old(src[sp..sp + len]), 8 * es, size / 8, es), dst[dp..dp + len], size / 8, es, es, 0, 0)
  {
    hide *;
    RowsMake(size, es, len);
    SweepEights(es, size / 8, src, sp, len);
    ShuffleBitEightElem(size / 8, es, src, sp, dst, dp, len);
  }

  /** The bytes of the groups, spread. */
  lemma SomeSpread(s: seq<byte>, rows: nat, es: nat) returns (d: seq<byte>)
    requires es > 0 && |s| == 8 * es * rows
    ensures Spread(s, d, rows, es, es, 0, 0)
  {
    hide At, Slice, SpreadByte;
    d := seq(|s|, p requires 0 <= p < |s| => SpreadByte(s, es, p));
    forall j: nat, q: nat, k: nat | j < es && q < rows && k < 8
      ensures SpreadOne(s, d, es, j, q, k)
    {
      SpreadByteIs(s, rows, es, j, q, k);
    }
  }

  /** Where byte `p` of the elements comes from. */
  ghost function SpreadByte(s: seq<byte>, es: nat, p: nat): byte
    requires es > 0
  {
    var group := At(p / es / 8, 8 * es, 8 * (p % es));
    if group + 8 <= |s| then Slice(s, group, p / es % 8) else 0
  }

  lemma SpreadByteIs(s: seq<byte>, rows: nat, es: nat, j: nat, q: nat, k: nat)
    requires |s| == 8 * es * rows && j < es && q < rows && k < 8
    ensures At(8 * q + k, es, j) < |s| && At(q, 8 * es, 8 * j) + 8 <= |s|
    ensures SpreadByte(s, es, At(8 * q + k, es, j)) == Slice(s, At(q, 8 * es, 8 * j), k)
  {
    hide At, Slice;
    GroupFits(rows, es, q, j);
    AtTells(8 * q + k, es, j);
    AtFits(8 * rows, 8 * q + k, es, j);
    RowsTimes(rows, es);
  }

  lemma RowsTimes(rows: nat, es: nat)
    ensures 8 * rows * es == 8 * es * rows
  {
  }

  /** So the inverse, with its source as scratch, restores every block exactly if there are
      at most eight elements. */
  lemma RestoredExactly(rows: nat, es: nat)
    requires es > 0
    ensures (forall a: seq<byte>, c: seq<byte> ::
               |a| == 8 * es * rows && Spread(Swept(a, 8 * es, rows, es), c, rows, es, es, 0, 0) ==> BitRows(c, a, rows, es))
       <==> rows <= 1
  {
    hide Swept, Spread, BitRows;
    if rows <= 1 {
      forall a: seq<byte>, c: seq<byte> | |a| == 8 * es * rows && Spread(Swept(a, 8 * es, rows, es), c, rows, es, es, 0, 0)
        ensures BitRows(c, a, rows, es)
      {
        SweptIsTransposed(a, es, rows);
        StagesUnmakeRows(a, Swept(a, 8 * es, rows, es), c, rows, es);
      }
    } else {
      ProductGrows(8, 8 * es, rows);
      var a := seq(8 * es * rows, _ => 0 as byte);
      SecondByteLost(a, 1, rows, es);
      assert a[1] == 0 && a[1 := 1][1] == 1;
      var c := SomeSpread(Swept(a, 8 * es, rows, es), rows, es);
      if BitRows(c, a, rows, es) && BitRows(c, a[1 := 1], rows, es) {
        ElementsDecideRows(c, a, a[1 := 1], rows, es);
      }
      assert !(BitRows(c, a, rows, es) && BitRows(c, a[1 := 1], rows, es));
    }
  }

  // ----- The rows determine the elements, and the elements the rows -----

  lemma RowsDecideByte(a: seq<byte>, a2: seq<byte>, b: seq<byte>, rows: nat, es: nat, q: nat, r: nat, j: nat)
    requires BitRows(a, b, rows, es) && BitRows(a2, b, rows, es) && q < rows && r < 8 && j < es
    ensures At(8 * q + r, es, j) < |a| && a[At(8 * q + r, es, j)] == a2[At(8 * q + r, es, j)]
  {
    hide At, Bit;
    assert BitMoved(a, b, rows, es, q, r, j, 0);
    var x := At(8 * q + r, es, j);
    forall k: nat | k < 8
      ensures Bit(a[x], k) <==> Bit(a2[x], k)
    {
      assert BitMoved(a, b, rows, es, q, r, j, k) && BitMoved(a2, b, rows, es, q, r, j, k);
    }
    BitsDecide(a[x], a2[x]);
  }

  lemma RowsDecideElements(a: seq<byte>, a2: seq<byte>, b: seq<byte>, rows: nat, es: nat)
    requires BitRows(a, b, rows, es) && BitRows(a2, b, rows, es)
    ensures a == a2
  {
    hide At, BitMoved;
    forall x: nat | x < |a|
      ensures a[x] == a2[x]
    {
      EveryPlace(x, 8 * rows, es);
      var i: nat := x / es;
      RowsDecideByte(a, a2, b, rows, es, i / 8, i % 8, x % es);
    }
  }

  lemma ElementsDecideByte(a: seq<byte>, b: seq<byte>, b2: seq<byte>, rows: nat, es: nat, q: nat, j: nat, k: nat)
    requires BitRows(a, b, rows, es) && BitRows(a, b2, rows, es) && q < rows && j < es && k < 8
    ensures At(8 * j + k, rows, q) < |b| && b[At(8 * j + k, rows, q)] == b2[At(8 * j + k, rows, q)]
  {
    hide At, Bit;
    assert BitMoved(a, b, rows, es, q, 0, j, k);
    var x := At(8 * j + k, rows, q);
    forall r: nat | r < 8
      ensures Bit(b[x], r) <==> Bit(b2[x], r)
    {
      assert BitMoved(a, b, rows, es, q, r, j, k) && BitMoved(a, b2, rows, es, q, r, j, k);
    }
    BitsDecide(b[x], b2[x]);
  }

  lemma ElementsDecideRows(a: seq<byte>, b: seq<byte>, b2: seq<byte>, rows: nat, es: nat)
    requires BitRows(a, b, rows, es) && BitRows(a, b2, rows, es)
    ensures b == b2
  {
    hide At, BitMoved;
    assert 8 * es * rows == 8 * rows * es;
    forall x: nat | x < |b|
      ensures b[x] == b2[x]
    {
      EveryPlace(x, 8 * es, rows);
      var i: nat := x / rows;
      ElementsDecideByte(a, b, b2, rows, es, x % rows, i / 8, i % 8);
    }
  }
}
