/** The byte shuffle with vector instructions, for types of 16 bytes and more
    (c-blosc2/blosc/shuffle-sse2.c:157-253, 368-613). */
module ShuffleSse2 {
  import opened Bytes
  import opened Arithmetic
  import opened Shuffle

  // ----- Vectors of sixteen bytes -----

  type vec = v: seq<byte> | |v| == 16 witness [0, 0, 0, 0, 0, 0, 0, 0, 0, 0, 0, 0, 0, 0, 0, 0]

  /** The unpack instructions: units of `w` bytes taken in turn from the lower or the upper
      halves of two vectors. */
  function Unpack(w: nat, x: vec, y: vec, hi: bool): vec
    requires w == 1 || w == 2 || w == 4 || w == 8
  {
    seq(16, q requires 0 <= q < 16 =>
      if q / w % 2 == 0 then x[TakenFrom(w, q, hi)] else y[TakenFrom(w, q, hi)])
  }

  function TakenFrom(w: nat, q: nat, hi: bool): (at: nat)
    requires (w == 1 || w == 2 || w == 4 || w == 8) && q < 16
    ensures at < 16
  {
    var half := match w case 1 => q / 2 case 2 => q / 4 * 2 + q % 2 case 4 => q / 8 * 4 + q % 4 case _ => q % 8;
    (if hi then 8 else 0) + half
  }

  /** The number with four given bits, highest first. */
  function Four(b3: bool, b2: bool, b1: bool, b0: bool): (n: nat)
    ensures n < 16
  {
    (if b3 then 8 else 0) + (if b2 then 4 else 0) + (if b1 then 2 else 0) + if b0 then 1 else 0
  }

  lemma FourTells(n: nat) returns (b3: bool, b2: bool, b1: bool, b0: bool)
    requires n < 16
    ensures n == Four(b3, b2, b1, b0)
  {
    b3, b2, b1, b0 := n >= 8, n % 8 >= 4, n % 4 >= 2, n % 2 == 1;
  }

  lemma UnpackBytes(x: vec, y: vec, hi: bool, p3: bool, p2: bool, p1: bool, p0: bool)
    ensures Unpack(1, x, y, hi)[Four(p3, p2, p1, p0)] == (if p0 then y else x)[Four(hi, p3, p2, p1)]
  {
  }

  lemma UnpackWords(x: vec, y: vec, hi: bool, p3: bool, p2: bool, p1: bool, p0: bool)
    ensures Unpack(2, x, y, hi)[Four(p3, p2, p1, p0)] == (if p1 then y else x)[Four(hi, p3, p2, p0)]
  {
  }

  lemma UnpackDoubles(x: vec, y: vec, hi: bool, p3: bool, p2: bool, p1: bool, p0: bool)
    ensures Unpack(4, x, y, hi)[Four(p3, p2, p1, p0)] == (if p2 then y else x)[Four(hi, p3, p1, p0)]
  {
  }

  lemma UnpackQuads(x: vec, y: vec, hi: bool, p3: bool, p2: bool, p1: bool, p0: bool)
    ensures Unpack(8, x, y, hi)[Four(p3, p2, p1, p0)] == (if p3 then y else x)[Four(hi, p2, p1, p0)]
  {
  }

  // ----- The network that shuffles -----

  function ZeroVec(): vec {
    [0, 0, 0, 0, 0, 0, 0, 0, 0, 0, 0, 0, 0, 0, 0, 0]
  }

  /** Sixteen registers. */
  type regs = x: seq<vec> | |x| == 16 witness ZeroRegs()

  function ZeroRegs(): (x: seq<vec>)
    ensures |x| == 16
  {
    var v: vec := ZeroVec();
    [v, v, v, v, v, v, v, v, v, v, v, v, v, v, v, v]
  }

  /** The first register of pair `k` in a layer: its partner is `w` further on. */
  function Left(w: nat, k: nat): (l: nat)
    requires (w == 1 || w == 2 || w == 4 || w == 8) && k < 8
    ensures l + w < 16
  {
    if w == 1 then 2 * k else if w == 2 then 4 * (k / 2) + k % 2 else if w == 4 then 8 * (k / 4) + k % 4 else k
  }

  /** One layer: register 2k and 2k + 1 get the lower and the upper halves of a pair. */
  function Layer(w: nat, x: regs): regs
    requires w == 1 || w == 2 || w == 4 || w == 8
  {
    seq(16, r requires 0 <= r < 16 => Half(w, x, Left(w, r / 2), r % 2 == 1))
  }

  function Half(w: nat, x: regs, l: nat, hi: bool): vec
    requires (w == 1 || w == 2 || w == 4 || w == 8) && l + w < 16
  {
    Unpack(w, x[l], x[l + w], hi)
  }

  function Network(x: regs): regs {
    Layer(8, Layer(4, Layer(2, Layer(1, x))))
  }

  lemma LayerAt(w: nat, x: regs, r: nat)
    requires (w == 1 || w == 2 || w == 4 || w == 8) && r < 16
    ensures Layer(w, x)[r] == Unpack(w, x[Left(w, r / 2)], x[Left(w, r / 2) + w], r % 2 == 1)
  {
    hide Unpack, Left;
  }

  lemma HalfOfFour(r3: bool, r2: bool, r1: bool, r0: bool)
    ensures Four(r3, r2, r1, r0) < 16 && Four(r3, r2, r1, r0) / 2 == Four(false, r3, r2, r1) < 8
    ensures (Four(r3, r2, r1, r0) % 2 == 1) == r0
  {
  }

  lemma LeftIs(k2: bool, k1: bool, k0: bool)
    ensures var k := Four(false, k2, k1, k0);
            && k < 8
            && Left(1, k) == Four(k2, k1, k0, false) && Left(1, k) + 1 == Four(k2, k1, k0, true)
            && Left(2, k) == Four(k2, k1, false, k0) && Left(2, k) + 2 == Four(k2, k1, true, k0)
            && Left(4, k) == Four(k2, false, k1, k0) && Left(4, k) + 4 == Four(k2, true, k1, k0)
            && Left(8, k) == Four(false, k2, k1, k0) && Left(8, k) + 8 == Four(true, k2, k1, k0)
  {
  }

  lemma LayerBytes(x: regs, r3: bool, r2: bool, r1: bool, r0: bool, p3: bool, p2: bool, p1: bool, p0: bool)
    ensures Layer(1, x)[Four(r3, r2, r1, r0)][Four(p3, p2, p1, p0)] == x[Four(r3, r2, r1, p0)][Four(r0, p3, p2, p1)]
  {
    hide *;
    var r := Four(r3, r2, r1, r0);
    HalfOfFour(r3, r2, r1, r0);
    LeftIs(r3, r2, r1);
    LayerAt(1, x, r);
    UnpackBytes(x[Left(1, r / 2)], x[Left(1, r / 2) + 1], r0, p3, p2, p1, p0);
  }

  lemma LayerWords(x: regs, r3: bool, r2: bool, r1: bool, r0: bool, p3: bool, p2: bool, p1: bool, p0: bool)
    ensures Layer(2, x)[Four(r3, r2, r1, r0)][Four(p3, p2, p1, p0)] == x[Four(r3, r2, p1, r1)][Four(r0, p3, p2, p0)]
  {
    hide *;
    var r := Four(r3, r2, r1, r0);
    HalfOfFour(r3, r2, r1, r0);
    LeftIs(r3, r2, r1);
    LayerAt(2, x, r);
    UnpackWords(x[Left(2, r / 2)], x[Left(2, r / 2) + 2], r0, p3, p2, p1, p0);
  }

  lemma LayerDoubles(x: regs, r3: bool, r2: bool, r1: bool, r0: bool, p3: bool, p2: bool, p1: bool, p0: bool)
    ensures Layer(4, x)[Four(r3, r2, r1, r0)][Four(p3, p2, p1, p0)] == x[Four(r3, p2, r2, r1)][Four(r0, p3, p1, p0)]
  {
    hide *;
    var r := Four(r3, r2, r1, r0);
    HalfOfFour(r3, r2, r1, r0);
    LeftIs(r3, r2, r1);
    LayerAt(4, x, r);
    UnpackDoubles(x[Left(4, r / 2)], x[Left(4, r / 2) + 4], r0, p3, p2, p1, p0);
  }

  lemma LayerQuads(x: regs, r3: bool, r2: bool, r1: bool, r0: bool, p3: bool, p2: bool, p1: bool, p0: bool)
    ensures Layer(8, x)[Four(r3, r2, r1, r0)][Four(p3, p2, p1, p0)] == x[Four(p3, r3, r2, r1)][Four(r0, p2, p1, p0)]
  {
    hide *;
    var r := Four(r3, r2, r1, r0);
    HalfOfFour(r3, r2, r1, r0);
    LeftIs(r3, r2, r1);
    LayerAt(8, x, r);
    UnpackQuads(x[Left(8, r / 2)], x[Left(8, r / 2) + 8], r0, p3, p2, p1, p0);
  }

  /** The four layers are the transpose of a 16x16 matrix of bytes. */
  lemma NetworkTransposes(x: regs, r: nat, p: nat)
    requires r < 16 && p < 16
    ensures Network(x)[r][p] == x[p][r]
  {
    hide Layer, Four;
    var r3, r2, r1, r0 := FourTells(r);
    var p3, p2, p1, p0 := FourTells(p);
    var x1 := Layer(1, x);
    var x2 := Layer(2, x1);
    LayerQuads(Layer(4, x2), r3, r2, r1, r0, p3, p2, p1, p0);
    LayerDoubles(x2, p3, r3, r2, r1, r0, p2, p1, p0);
    LayerWords(x1, p3, p2, r3, r2, r1, r0, p1, p0);
    LayerBytes(x, p3, p2, p1, r3, r2, r1, r0, p0);
  }

  // ----- The network that unshuffles -----

  /** One layer: the lower halves of the pairs come first, then the upper ones. */
  function UnLayer(w: nat, x: regs): regs
    requires w == 1 || w == 2 || w == 4 || w == 8
  {
    seq(16, r requires 0 <= r < 16 => Unpack(w, x[r % 8 * 2], x[r % 8 * 2 + 1], r >= 8))
  }

  /** The order in which the registers are stored in the end. */
  function Order(): (o: seq<nat>)
    ensures |o| == 16 && forall k :: 0 <= k < 16 ==> o[k] < 16
  {
    [0, 8, 4, 12, 2, 10, 6, 14, 1, 9, 5, 13, 3, 11, 7, 15]
  }

  function UnNetwork(x: regs): regs {
    UnLayer(8, UnLayer(4, UnLayer(2, UnLayer(1, x))))
  }

  lemma UnLayerAt(w: nat, x: regs, r: nat)
    requires (w == 1 || w == 2 || w == 4 || w == 8) && r < 16
    ensures UnLayer(w, x)[r] == Unpack(w, x[r % 8 * 2], x[r % 8 * 2 + 1], r >= 8)
  {
    hide Unpack;
  }

  lemma PairIs(r3: bool, r2: bool, r1: bool, r0: bool)
    ensures Four(r3, r2, r1, r0) < 16 && (Four(r3, r2, r1, r0) >= 8) == r3
    ensures Four(r3, r2, r1, r0) % 8 * 2 == Four(r2, r1, r0, false) && Four(r3, r2, r1, r0) % 8 * 2 + 1 == Four(r2, r1, r0, true)
    ensures Order()[Four(r3, r2, r1, r0)] == Four(r0, r1, r2, r3)
  {
  }

  lemma UnLayerBytes(x: regs, r3: bool, r2: bool, r1: bool, r0: bool, p3: bool, p2: bool, p1: bool, p0: bool)
    ensures UnLayer(1, x)[Four(r3, r2, r1, r0)][Four(p3, p2, p1, p0)] == x[Four(r2, r1, r0, p0)][Four(r3, p3, p2, p1)]
  {
    hide *;
    var r := Four(r3, r2, r1, r0);
    PairIs(r3, r2, r1, r0);
    UnLayerAt(1, x, r);
    UnpackBytes(x[r % 8 * 2], x[r % 8 * 2 + 1], r3, p3, p2, p1, p0);
  }

  lemma UnLayerWords(x: regs, r3: bool, r2: bool, r1: bool, r0: bool, p3: bool, p2: bool, p1: bool, p0: bool)
    ensures UnLayer(2, x)[Four(r3, r2, r1, r0)][Four(p3, p2, p1, p0)] == x[Four(r2, r1, r0, p1)][Four(r3, p3, p2, p0)]
  {
    hide *;
    var r := Four(r3, r2, r1, r0);
    PairIs(r3, r2, r1, r0);
    UnLayerAt(2, x, r);
    UnpackWords(x[r % 8 * 2], x[r % 8 * 2 + 1], r3, p3, p2, p1, p0);
  }

  lemma UnLayerDoubles(x: regs, r3: bool, r2: bool, r1: bool, r0: bool, p3: bool, p2: bool, p1: bool, p0: bool)
    ensures UnLayer(4, x)[Four(r3, r2, r1, r0)][Four(p3, p2, p1, p0)] == x[Four(r2, r1, r0, p2)][Four(r3, p3, p1, p0)]
  {
    hide *;
    var r := Four(r3, r2, r1, r0);
    PairIs(r3, r2, r1, r0);
    UnLayerAt(4, x, r);
    UnpackDoubles(x[r % 8 * 2], x[r % 8 * 2 + 1], r3, p3, p2, p1, p0);
  }

  lemma UnLayerQuads(x: regs, r3: bool, r2: bool, r1: bool, r0: bool, p3: bool, p2: bool, p1: bool, p0: bool)
    ensures UnLayer(8, x)[Four(r3, r2, r1, r0)][Four(p3, p2, p1, p0)] == x[Four(r2, r1, r0, p3)][Four(r3, p2, p1, p0)]
  {
    hide *;
    var r := Four(r3, r2, r1, r0);
    PairIs(r3, r2, r1, r0);
    UnLayerAt(8, x, r);
    UnpackQuads(x[r % 8 * 2], x[r % 8 * 2 + 1], r3, p3, p2, p1, p0);
  }

  /** In the order of the stores, these four layers are the transpose too. */
  lemma UnNetworkTransposes(x: regs, r: nat, p: nat)
    requires r < 16 && p < 16
    ensures UnNetwork(x)[Order()[r]][p] == x[p][r]
  {
    hide UnLayer, Four, Order;
    var r3, r2, r1, r0 := FourTells(r);
    var p3, p2, p1, p0 := FourTells(p);
    PairIs(r3, r2, r1, r0);
    var x1 := UnLayer(1, x);
    var x2 := UnLayer(2, x1);
    UnLayerQuads(UnLayer(4, x2), r0, r1, r2, r3, p3, p2, p1, p0);
    UnLayerDoubles(x2, r1, r2, r3, p3, r0, p2, p1, p0);
    UnLayerWords(x1, r2, r3, p3, p2, r1, r0, p1, p0);
    UnLayerBytes(x, r3, p3, p2, p1, r2, r1, r0, p0);
  }

  // ----- The register arrays -----

  lemma LeftSteps(w: nat, k: nat)
    requires (w == 1 || w == 2 || w == 4 || w == 8) && k < 8
    ensures k == 0 ==> Left(w, 0) == 0
    ensures k + 1 < 8 ==> Left(w, k + 1) == Left(w, k) + 1 + if (k + 1) % w == 0 then w else 0
  {
  }

  lemma LayerPair(w: nat, x: regs, k: nat)
    requires (w == 1 || w == 2 || w == 4 || w == 8) && k < 8
    ensures Layer(w, x)[2 * k] == Unpack(w, x[Left(w, k)], x[Left(w, k) + w], false)
    ensures Layer(w, x)[2 * k + 1] == Unpack(w, x[Left(w, k)], x[Left(w, k) + w], true)
  {
    hide Unpack, Left, Layer;
    LayerAt(w, x, 2 * k);
    LayerAt(w, x, 2 * k + 1);
  }

  /** The loop of one shuffling layer: from the registers `x` to the registers `y`. */
  method PutLayer(w: nat, x: array<vec>, y: array<vec>)
    requires (w == 1 || w == 2 || w == 4 || w == 8) && x != y && x.Length == y.Length == 16
    modifies y
    ensures y[..] == Layer(w, x[..])
  {
    hide Unpack, Left, Layer;
    var l := -(w as int);
    LeftSteps(w, 0);
    ghost var layer := Layer(w, x[..]);
    for k := 0 to 8
      invariant k < 8 ==> l + (if k % w == 0 then w else 0) == Left(w, k)
      invariant forall r :: 0 <= r < 2 * k ==> y[r] == layer[r]
    {
      if k % w == 0 {
        l := l + w;
      }
      y[k * 2] := Unpack(w, x[l], x[l + w], false);
      y[k * 2 + 1] := Unpack(w, x[l], x[l + w], true);
      LayerPair(w, x[..], k);
      LeftSteps(w, k);
      l := l + 1;
    }
  }

  /** The loop of one unshuffling layer. */
  method PutUnLayer(w: nat, x: array<vec>, y: array<vec>)
    requires (w == 1 || w == 2 || w == 4 || w == 8) && x != y && x.Length == y.Length == 16
    modifies y
    ensures y[..] == UnLayer(w, x[..])
  {
    hide Unpack, UnLayer;
    for j := 0 to 8
      invariant forall r :: 0 <= r < j || 8 <= r < 8 + j ==> y[r] == UnLayer(w, x[..])[r]
    {
      y[j] := Unpack(w, x[j * 2], x[j * 2 + 1], false);
      y[8 + j] := Unpack(w, x[j * 2], x[j * 2 + 1], true);
      UnLayerAt(w, x[..], j);
      UnLayerAt(w, x[..], 8 + j);
    }
  }

  // ----- Loads and stores -----

  /** Row `i`, column `j` of the matrix `s` is where it belongs in `d`. */
  ghost predicate Right(s: seq<byte>, d: seq<byte>, n: nat, m: nat, j: nat, i: nat) {
    At(j, n, i) < |d| && At(i, m, j) < |s| && d[At(j, n, i)] == s[At(i, m, j)]
  }

  ghost predicate Box(s: seq<byte>, d: seq<byte>, n: nat, m: nat, j0: nat, j1: nat, i0: nat, i1: nat) {
    forall j: nat, i: nat :: j0 <= j < j1 && i0 <= i < i1 ==> Right(s, d, n, m, j, i)
  }

  /** What is right stays right. */
  ghost predicate Kept(s: seq<byte>, d: seq<byte>, e: seq<byte>, n: nat, m: nat) {
    forall j: nat, i: nat :: j < m && i < n && Right(s, d, n, m, j, i) ==> Right(s, e, n, m, j, i)
  }

  lemma BoxKept(s: seq<byte>, d: seq<byte>, e: seq<byte>, n: nat, m: nat, j0: nat, j1: nat, i0: nat, i1: nat)
    requires Box(s, d, n, m, j0, j1, i0, i1) && Kept(s, d, e, n, m) && j1 <= m && i1 <= n
    ensures Box(s, e, n, m, j0, j1, i0, i1)
  {
    hide Right;
  }

  lemma KeptTwice(s: seq<byte>, d: seq<byte>, e: seq<byte>, f: seq<byte>, n: nat, m: nat)
    requires Kept(s, d, e, n, m) && Kept(s, e, f, n, m)
    ensures Kept(s, d, f, n, m)
  {
    hide Right;
  }

  lemma KeptSame(s: seq<byte>, d: seq<byte>, n: nat, m: nat)
    ensures Kept(s, d, d, n, m)
  {
    hide Right;
  }

  /** Boxes one below the other, and side by side. */
  lemma BoxesJoin(s: seq<byte>, d: seq<byte>, n: nat, m: nat, j0: nat, j1: nat, j2: nat, i0: nat, i1: nat)
    requires Box(s, d, n, m, j0, j1, i0, i1) && Box(s, d, n, m, j1, j2, i0, i1)
    ensures Box(s, d, n, m, j0, j2, i0, i1)
  {
    hide Right;
  }

  lemma BoxesMeet(s: seq<byte>, d: seq<byte>, n: nat, m: nat, j0: nat, j1: nat, i0: nat, i1: nat, i2: nat)
    requires Box(s, d, n, m, j0, j1, i0, i1) && Box(s, d, n, m, j0, j1, i1, i2)
    ensures Box(s, d, n, m, j0, j1, i0, i2)
  {
    hide Right;
  }

  lemma SmallerBox(s: seq<byte>, d: seq<byte>, n: nat, m: nat, j0: nat, j1: nat, j2: nat, i0: nat, i1: nat)
    requires Box(s, d, n, m, j0, j2, i0, i1) && j1 <= j2
    ensures Box(s, d, n, m, j0, j1, i0, i1)
  {
    hide Right;
  }

  lemma AtSame(j: nat, n: nat, i: nat, k: nat)
    requires At(j, n, i) <= k
    ensures k == At(j, n, i + (k - At(j, n, i)))
  {
  }

  lemma AtOn(j: nat, n: nat, i: nat, b: nat)
    ensures At(j, n, i + b) == At(j, n, i) + b
  {
  }

  /** Byte `b` of a vector is what row `i + b` has in column `j`. */
  ghost predicate Carries(s: seq<byte>, m: nat, i: nat, j: nat, v: vec, b: nat) {
    b < 16 && At(i + b, m, j) < |s| && v[b] == s[At(i + b, m, j)]
  }

  /** Storing a vector of right bytes. */
  lemma Stored(s: seq<byte>, d: seq<byte>, e: seq<byte>, n: nat, m: nat, j: nat, i: nat, v: vec)
    requires j < m && i + 16 <= n && |s| == |d| == |e| == n * m
    requires forall k :: 0 <= k < |d| ==> e[k] == if At(j, n, i) <= k < At(j, n, i) + 16 then v[k - At(j, n, i)] else d[k]
    requires forall b: nat :: b < 16 ==> Carries(s, m, i, j, v, b)
    ensures Kept(s, d, e, n, m) && Box(s, e, n, m, j, j + 1, i, i + 16)
  {
    hide At;
    forall i2: nat | i <= i2 < i + 16
      ensures Right(s, e, n, m, j, i2)
    {
      var b: nat := i2 - i;
      assert Carries(s, m, i, j, v, b);
      AtOn(j, n, i, b);
      AtFits(m, j, n, i + b);
    }
    forall j2: nat, i2: nat | j2 < m && i2 < n && Right(s, d, n, m, j2, i2)
      ensures Right(s, e, n, m, j2, i2)
    {
      var k := At(j2, n, i2);
      if At(j, n, i) <= k < At(j, n, i) + 16 {
        var b: nat := k - At(j, n, i);
        AtSame(j, n, i, k);
        AtTells(j2, n, i2);
        AtTells(j, n, i + b);
        assert Right(s, e, n, m, j, i + b);
      }
    }
  }

  /** Sixteen bytes of sixteen rows, from row `i` and column `j` on. */
  ghost predicate Loaded(s: seq<byte>, m: nat, i: nat, j: nat, x: seq<vec>) {
    |x| == 16 && forall k: nat, b: nat :: k < 16 && b < 16 ==> Holds(s, m, i, j, x, k, b)
  }

  ghost predicate Holds(s: seq<byte>, m: nat, i: nat, j: nat, x: seq<vec>, k: nat, b: nat) {
    k < |x| && b < 16 && At(i + k, m, j + b) < |s| && x[k][b] == s[At(i + k, m, j + b)]
  }

  method Load(n: nat, m: nat, i: nat, j: nat, src: array<byte>, sp: nat, x: array<vec>, ghost len: nat)
    requires i + 16 <= n && j + 16 <= m && len == n * m && sp + len <= src.Length && x.Length == 16
    modifies x
    ensures Loaded(src[sp..sp + len], m, i, j, x[..])
  {
    hide At;
    ghost var s := src[sp..sp + len];
    for k := 0 to 16
      invariant forall k2: nat, b: nat :: k2 < k && b < 16 ==> Holds(s, m, i, j, x[..], k2, b)
    {
      AtOn(i + k, m, j, 15);
      AtFits(n, i + k, m, j + 15);
      var a := At(i + k, m, j);
      ghost var before := x[..];
      x[k] := src[sp + a..sp + a + 16];
      forall k2: nat, b: nat | k2 < k + 1 && b < 16
        ensures Holds(s, m, i, j, x[..], k2, b)
      {
        if k2 < k {
          assert Holds(s, m, i, j, before, k2, b);
        } else {
          AtOn(i + k, m, j, b);
          assert x[k][b] == s[a + b];
        }
      }
    }
  }

  /** The registers `y`, taken in the order `o`, hold the transpose of what was loaded;
      they are stored one after the other from row `j` of the result on. */
  method Store(n: nat, m: nat, i: nat, j: nat, y: array<vec>, o: seq<nat>, ghost x: seq<vec>, ghost s: seq<byte>,
               dst: array<byte>, dp: nat, ghost len: nat)
    requires i + 16 <= n && j + 16 <= m && len == n * m == |s| && dp + len <= dst.Length && y.Length == 16
    requires |o| == 16 && forall k :: 0 <= k < 16 ==> o[k] < 16
    requires Loaded(s, m, i, j, x) && forall r: nat, p: nat :: r < 16 && p < 16 ==> y[o[r]][p] == x[p][r]
    modifies dst
    ensures forall k :: 0 <= k < dst.Length && !(dp <= k < dp + len) ==> dst[k] == old(dst[k])
    ensures Kept(s, old(dst[dp..dp + len]), dst[dp..dp + len], n, m)
    ensures Box(s, dst[dp..dp + len], n, m, j, j + 16, i, i + 16)
  {
    hide At, Box, Kept, Right;
    ghost var d0 := dst[dp..dp + len];
    KeptSame(s, d0, n, m);
    EmptyBox(s, d0, n, m, j, i);
    for k := 0 to 16
      invariant forall k :: 0 <= k < dst.Length && !(dp <= k < dp + len) ==> dst[k] == old(dst[k])
      invariant Kept(s, d0, dst[dp..dp + len], n, m)
      invariant Box(s, dst[dp..dp + len], n, m, j, j + k, i, i + 16)
    {
      ghost var d := dst[dp..dp + len];
      AtOn(j + k, n, i, 15);
      AtFits(m, j + k, n, i + 15);
      var a, v := dp + At(j + k, n, i), y[o[k]];
      forall b | 0 <= b < 16 {
        dst[a + b] := v[b];
      }
      ghost var e := dst[dp..dp + len];
      ghost var jk := j + k;
      forall b: nat | b < 16
        ensures Carries(s, m, i, jk, v, b)
      {
        assert Holds(s, m, i, j, x, b, k);
        assert y[o[k]][b] == x[b][k];
      }
      Stored(s, d, e, n, m, j + k, i, v);
      KeptTwice(s, d0, d, e, n, m);
      BoxKept(s, d, e, n, m, j, j + k, i, i + 16);
      BoxesJoin(s, e, n, m, j, j + k, j + k + 1, i, i + 16);
    }
  }

  lemma EmptyBox(s: seq<byte>, d: seq<byte>, n: nat, m: nat, j: nat, i: nat)
    ensures Box(s, d, n, m, j, j, i, i + 16)
  {
  }

  /** One window of sixteen elements and sixteen of their bytes, shuffled. */
  method ShuffleWindow(n: nat, ts: nat, j: nat, off: nat, xmm0: array<vec>, xmm1: array<vec>,
                       src: array<byte>, sp: nat, dst: array<byte>, dp: nat, ghost len: nat)
    requires j + 16 <= n && off + 16 <= ts && len == n * ts && sp + len <= src.Length && dp + len <= dst.Length
    requires xmm0 != xmm1 && xmm0.Length == xmm1.Length == 16 && src != dst
    modifies dst, xmm0, xmm1
    ensures forall k :: 0 <= k < dst.Length && !(dp <= k < dp + len) ==> dst[k] == old(dst[k])
    ensures Kept(src[sp..sp + len], old(dst[dp..dp + len]), dst[dp..dp + len], n, ts)
    ensures Box(src[sp..sp + len], dst[dp..dp + len], n, ts, off, off + 16, j, j + 16)
  {
    hide *;
    Load(n, ts, j, off, src, sp, xmm0, len);
    ghost var x := xmm0[..];
    PutLayer(1, xmm0, xmm1);
    PutLayer(2, xmm1, xmm0);
    PutLayer(4, xmm0, xmm1);
    PutLayer(8, xmm1, xmm0);
    ShuffledWindow(x, xmm0[..]);
    Store(n, ts, j, off, xmm0, InTurn(), x, src[sp..sp + len], dst, dp, len);
  }

  function InTurn(): (o: seq<nat>)
    ensures |o| == 16 && forall k :: 0 <= k < 16 ==> o[k] == k
  {
    [0, 1, 2, 3, 4, 5, 6, 7, 8, 9, 10, 11, 12, 13, 14, 15]
  }

  lemma ShuffledWindow(x: regs, y: regs)
    requires y == Layer(8, Layer(4, Layer(2, Layer(1, x))))
    ensures forall r: nat, p: nat :: r < 16 && p < 16 ==> y[InTurn()[r]][p] == x[p][r]
  {
    hide Layer, InTurn;
    forall r: nat, p: nat | r < 16 && p < 16
      ensures y[InTurn()[r]][p] == x[p][r]
    {
      NetworkTransposes(x, r, p);
    }
  }

  method UnshuffleWindow(n: nat, ts: nat, i: nat, off: nat, xmm1: array<vec>, xmm2: array<vec>,
                         src: array<byte>, sp: nat, dst: array<byte>, dp: nat, ghost len: nat)
    requires i + 16 <= n && off + 16 <= ts && len == ts * n && sp + len <= src.Length && dp + len <= dst.Length
    requires xmm1 != xmm2 && xmm1.Length == xmm2.Length == 16 && src != dst
    modifies dst, xmm1, xmm2
    ensures forall k :: 0 <= k < dst.Length && !(dp <= k < dp + len) ==> dst[k] == old(dst[k])
    ensures Kept(src[sp..sp + len], old(dst[dp..dp + len]), dst[dp..dp + len], ts, n)
    ensures Box(src[sp..sp + len], dst[dp..dp + len], ts, n, i, i + 16, off, off + 16)
  {
    hide *;
    Load(ts, n, off, i, src, sp, xmm1, len);
    ghost var x := xmm1[..];
    PutUnLayer(1, xmm1, xmm2);
    PutUnLayer(2, xmm2, xmm1);
    PutUnLayer(4, xmm1, xmm2);
    PutUnLayer(8, xmm2, xmm1);
    UnshuffledWindow(x, xmm1[..]);
    Store(ts, n, off, i, xmm1, Order(), x, src[sp..sp + len], dst, dp, len);
  }

  lemma UnshuffledWindow(x: regs, y: regs)
    requires y == UnLayer(8, UnLayer(4, UnLayer(2, UnLayer(1, x))))
    ensures forall r: nat, p: nat :: r < 16 && p < 16 ==> y[Order()[r]][p] == x[p][r]
  {
    hide UnLayer, Order;
    forall r: nat, p: nat | r < 16 && p < 16
      ensures y[Order()[r]][p] == x[p][r]
    {
      UnNetworkTransposes(x, r, p);
    }
  }

  // ----- Whole blocks -----

  /** The windows of a type: the second one makes up for what is not a multiple of
      sixteen bytes, and overlaps the first. */
  function NextWindow(ts: nat, off: nat): nat {
    off + if off == 0 && ts % 16 > 0 then ts % 16 else 16
  }

  lemma WindowFits(ts: nat, off: nat)
    requires 16 <= ts && off < ts && (off == 0 || (ts - off) % 16 == 0)
    ensures off + 16 <= ts && off < NextWindow(ts, off) <= off + 16 && NextWindow(ts, off) <= ts
    ensures (ts - NextWindow(ts, off)) % 16 == 0
  {
  }

  lemma BoxIsEmpty(s: seq<byte>, d: seq<byte>, n: nat, m: nat, j: nat, j1: nat, i: nat, i1: nat)
    requires j >= j1 || i >= i1
    ensures Box(s, d, n, m, j, j1, i, i1)
  {
  }

  /** shuffle16_sse2 and shuffle16_tiled_sse2: elements on the outside, windows within. */
  method Shuffle16Tiled(ve: nat, n: nat, ts: nat, src: array<byte>, sp: nat, dst: array<byte>, dp: nat, ghost len: nat)
    requires ts >= 16 && ve % 16 == 0 && ve <= n && len == n * ts && src != dst
    requires sp + len <= src.Length && dp + len <= dst.Length
    modifies dst
    ensures forall k :: 0 <= k < dst.Length && !(dp <= k < dp + len) ==> dst[k] == old(dst[k])
    ensures Box(src[sp..sp + len], dst[dp..dp + len], n, ts, 0, ts, 0, ve)
  {
    hide Box, Kept, Unpack;
    var xmm0, xmm1 := new vec[16], new vec[16];
    ghost var s := src[sp..sp + len];
    var j := 0;
    BoxIsEmpty(s, dst[dp..dp + len], n, ts, 0, ts, 0, 0);
    while j < ve
      invariant j <= ve && j % 16 == 0 && fresh(xmm0) && fresh(xmm1)
      invariant Box(s, dst[dp..dp + len], n, ts, 0, ts, 0, j)
      invariant forall k :: 0 <= k < dst.Length && !(dp <= k < dp + len) ==> dst[k] == old(dst[k])
    {
      ghost var d := dst[dp..dp + len];
      ShuffleElements(n, ts, j, xmm0, xmm1, src, sp, dst, dp, len);
      BoxKept(s, d, dst[dp..dp + len], n, ts, 0, ts, 0, j);
      BoxesMeet(s, dst[dp..dp + len], n, ts, 0, ts, 0, j, j + 16);
      j := j + 16;
    }
  }

  /** The loop within: all windows of sixteen elements. */
  method ShuffleElements(n: nat, ts: nat, j: nat, xmm0: array<vec>, xmm1: array<vec>,
                         src: array<byte>, sp: nat, dst: array<byte>, dp: nat, ghost len: nat)
    requires ts >= 16 && j + 16 <= n && len == n * ts && src != dst
    requires sp + len <= src.Length && dp + len <= dst.Length && xmm0 != xmm1 && xmm0.Length == xmm1.Length == 16
    modifies dst, xmm0, xmm1
    ensures forall k :: 0 <= k < dst.Length && !(dp <= k < dp + len) ==> dst[k] == old(dst[k])
    ensures Kept(src[sp..sp + len], old(dst[dp..dp + len]), dst[dp..dp + len], n, ts)
    ensures Box(src[sp..sp + len], dst[dp..dp + len], n, ts, 0, ts, j, j + 16)
  {
    hide *;
    ghost var s, d0 := src[sp..sp + len], dst[dp..dp + len];
    var off := 0;
    BoxIsEmpty(s, d0, n, ts, 0, 0, j, j + 16);
    KeptSame(s, d0, n, ts);
    while off < ts
      invariant off <= ts && (off == 0 || (ts - off) % 16 == 0)
      invariant Kept(s, d0, dst[dp..dp + len], n, ts)
      invariant Box(s, dst[dp..dp + len], n, ts, 0, off, j, j + 16)
      invariant forall k :: 0 <= k < dst.Length && !(dp <= k < dp + len) ==> dst[k] == old(dst[k])
    {
      ghost var d := dst[dp..dp + len];
      WindowFits(ts, off);
      ShuffleWindow(n, ts, j, off, xmm0, xmm1, src, sp, dst, dp, len);
      ghost var e := dst[dp..dp + len];
      KeptTwice(s, d0, d, e, n, ts);
      BoxKept(s, d, e, n, ts, 0, off, j, j + 16);
      BoxesJoin(s, e, n, ts, 0, off, off + 16, j, j + 16);
      SmallerBox(s, e, n, ts, 0, NextWindow(ts, off), off + 16, j, j + 16);
      off := NextWindow(ts, off);
    }
  }

  /** unshuffle16_sse2 and unshuffle16_tiled_sse2: here the loops are the other way round. */
  method Unshuffle16Tiled(ve: nat, n: nat, ts: nat, src: array<byte>, sp: nat, dst: array<byte>, dp: nat, ghost len: nat)
    requires ts >= 16 && ve % 16 == 0 && ve <= n && len == ts * n && src != dst
    requires sp + len <= src.Length && dp + len <= dst.Length
    modifies dst
    ensures forall k :: 0 <= k < dst.Length && !(dp <= k < dp + len) ==> dst[k] == old(dst[k])
    ensures Box(src[sp..sp + len], dst[dp..dp + len], ts, n, 0, ve, 0, ts)
  {
    hide *;
    var xmm1, xmm2 := new vec[16], new vec[16];
    ghost var s := src[sp..sp + len];
    var off := 0;
    BoxIsEmpty(s, dst[dp..dp + len], ts, n, 0, ve, 0, 0);
    while off < ts
      invariant off <= ts && (off == 0 || (ts - off) % 16 == 0) && fresh(xmm1) && fresh(xmm2)
      invariant Box(s, dst[dp..dp + len], ts, n, 0, ve, 0, off)
      invariant forall k :: 0 <= k < dst.Length && !(dp <= k < dp + len) ==> dst[k] == old(dst[k])
    {
      ghost var d := dst[dp..dp + len];
      WindowFits(ts, off);
      UnshuffleColumns(ve, n, ts, off, xmm1, xmm2, src, sp, dst, dp, len);
      BoxKept(s, d, dst[dp..dp + len], ts, n, 0, ve, 0, off);
      BoxesMeet(s, dst[dp..dp + len], ts, n, 0, ve, 0, off, off + 16);
      LowerBox(s, dst[dp..dp + len], ts, n, 0, ve, 0, NextWindow(ts, off), off + 16);
      off := NextWindow(ts, off);
    }
  }

  /** The loop within. */
  method UnshuffleColumns(ve: nat, n: nat, ts: nat, off: nat, xmm1: array<vec>, xmm2: array<vec>,
                          src: array<byte>, sp: nat, dst: array<byte>, dp: nat, ghost len: nat)
    requires off + 16 <= ts && ve % 16 == 0 && ve <= n && len == ts * n && src != dst
    requires sp + len <= src.Length && dp + len <= dst.Length && xmm1 != xmm2 && xmm1.Length == xmm2.Length == 16
    modifies dst, xmm1, xmm2
    ensures forall k :: 0 <= k < dst.Length && !(dp <= k < dp + len) ==> dst[k] == old(dst[k])
    ensures Kept(src[sp..sp + len], old(dst[dp..dp + len]), dst[dp..dp + len], ts, n)
    ensures Box(src[sp..sp + len], dst[dp..dp + len], ts, n, 0, ve, off, off + 16)
  {
    hide *;
    ghost var s, d0 := src[sp..sp + len], dst[dp..dp + len];
    ghost var windows, k := ve / 16, 0;
    assert ve == 16 * windows;
    var i := 0;
    BoxIsEmpty(s, d0, ts, n, 0, 0, off, off + 16);
    KeptSame(s, d0, ts, n);
    while i < ve
      invariant i <= ve && i == 16 * k
      invariant Kept(s, d0, dst[dp..dp + len], ts, n)
      invariant Box(s, dst[dp..dp + len], ts, n, 0, i, off, off + 16)
      invariant forall k :: 0 <= k < dst.Length && !(dp <= k < dp + len) ==> dst[k] == old(dst[k])
    {
      ghost var d := dst[dp..dp + len];
      UnshuffleWindow(n, ts, i, off, xmm1, xmm2, src, sp, dst, dp, len);
      ghost var e := dst[dp..dp + len];
      KeptTwice(s, d0, d, e, ts, n);
      BoxKept(s, d, e, ts, n, 0, i, off, off + 16);
      BoxesJoin(s, e, ts, n, 0, i, i + 16, off, off + 16);
      i, k := i + 16, k + 1;
    }
  }

  lemma LowerBox(s: seq<byte>, d: seq<byte>, n: nat, m: nat, j0: nat, j1: nat, i0: nat, i1: nat, i2: nat)
    requires Box(s, d, n, m, j0, j1, i0, i2) && i1 <= i2
    ensures Box(s, d, n, m, j0, j1, i0, i1)
  {
    hide Right;
  }

  /** The part of a block that is a multiple of both the type and the vector. */
  function VectorizableBytes(ts: nat, blocksize: nat): (v: nat)
    requires ts > 0
    ensures v <= blocksize
  {
    blocksize - blocksize % (ts * 16)
  }

  lemma Vectorizable(ts: nat, blocksize: nat)
    requires ts > 0
    ensures Elements(ts, VectorizableBytes(ts, blocksize)) % 16 == 0
    ensures Elements(ts, VectorizableBytes(ts, blocksize)) <= Elements(ts, blocksize)
    ensures VectorizableBytes(ts, blocksize) == blocksize ==> Remainder(ts, blocksize) == 0
  {
    var q := blocksize / (ts * 16);
    var v := VectorizableBytes(ts, blocksize);
    assert blocksize == (ts * 16) * q + blocksize % (ts * 16);
    assert (ts * 16) * q == (16 * q) * ts;
    DivUnique(v, ts, 16 * q, 0);
    FewerElements(ts, v, blocksize);
  }

  lemma BoxIsBefore(s: seq<byte>, d: seq<byte>, n: nat, m: nat, j0: nat, i0: nat)
    requires |s| == |d| == n * m && j0 <= m && i0 <= n
    ensures Box(s, d, n, m, 0, m, 0, i0) ==> Before(s, d, n, m, 0, i0)
    ensures Box(s, d, n, m, 0, j0, 0, n) ==> Before(s, d, n, m, j0, 0)
  {
    hide At;
    forall j2: nat, i2: nat | j2 < m && i2 < n && Right(s, d, n, m, j2, i2)
      ensures At(j2, n, i2) < |d| && At(i2, m, j2) < |s| && d[At(j2, n, i2)] == s[At(i2, m, j2)]
    {
    }
    assert Box(s, d, n, m, 0, m, 0, i0) ==> forall j2: nat, i2: nat :: j2 < m && i2 < i0 ==> Right(s, d, n, m, j2, i2);
    assert Box(s, d, n, m, 0, j0, 0, n) ==> forall j2: nat, i2: nat :: j2 < j0 && i2 < n ==> Right(s, d, n, m, j2, i2);
  }

  lemma BoxIsAll(s: seq<byte>, d: seq<byte>, n: nat, m: nat)
    requires |s| == |d| == n * m && Box(s, d, n, m, 0, m, 0, n)
    ensures d == Transposed(s, n, m)
  {
    hide At, Transposed;
    BoxIsBefore(s, d, n, m, m, n);
    AllMoved(s, d, n, m, 0, n);
  }

  /** shuffle_sse2, but for the types of 2, 4 and 8 bytes: it does what the simple loops do. */
  method ShuffleSse2(ts: nat, blocksize: nat, src: array<byte>, sp: nat, dst: array<byte>, dp: nat)
    requires ts > 0 && ts != 2 && ts != 4 && ts != 8 && src != dst
    requires sp + blocksize <= src.Length && dp + blocksize <= dst.Length
    modifies dst
    ensures dst[..dp] == old(dst[..dp]) && dst[dp + blocksize..] == old(dst[dp + blocksize..])
    ensures dst[dp..dp + blocksize] == Shuffled(ts, src[sp..sp + blocksize])
  {
    hide *;
    var n, vb := Elements(ts, blocksize), VectorizableBytes(ts, blocksize);
    ElementsMake(ts, blocksize);
    Vectorizable(ts, blocksize);
    ghost var whole := blocksize - Remainder(ts, blocksize);
    if blocksize < ts * 16 || ts < 16 {
      NothingBefore(src[sp..sp + whole], dst[dp..dp + whole], n, ts);
      ElementsOfNone(ts);
      ShuffleGeneric(ts, 0, blocksize, src, sp, dst, dp);
      return;
    }
    var ve := Elements(ts, vb);
    Shuffle16Tiled(ve, n, ts, src, sp, dst, dp, whole);
    BoxIsBefore(src[sp..sp + whole], dst[dp..dp + whole], n, ts, 0, ve);
    if vb < blocksize {
      ShuffleGeneric(ts, vb, blocksize, src, sp, dst, dp);
    } else {
      ghost var s, d := src[sp..sp + blocksize], dst[dp..dp + blocksize];
      BoxIsAll(s, d, n, ts);
      assert s[..whole] == s && d[..whole] == d && s[whole..] == d[whole..] == [];
      IsShuffled(ts, s, d, whole);
    }
  }

  /** unshuffle_sse2, with the same exceptions. */
  method UnshuffleSse2(ts: nat, blocksize: nat, src: array<byte>, sp: nat, dst: array<byte>, dp: nat)
    requires ts > 0 && ts != 2 && ts != 4 && ts != 8 && src != dst
    requires sp + blocksize <= src.Length && dp + blocksize <= dst.Length
    modifies dst
    ensures dst[..dp] == old(dst[..dp]) && dst[dp + blocksize..] == old(dst[dp + blocksize..])
    ensures dst[dp..dp + blocksize] == Unshuffled(ts, src[sp..sp + blocksize])
  {
    hide *;
    var n, vb := Elements(ts, blocksize), VectorizableBytes(ts, blocksize);
    ElementsMake(ts, blocksize);
    ElementsOf(ts, blocksize);
    Vectorizable(ts, blocksize);
    ghost var whole := blocksize - Remainder(ts, blocksize);
    if blocksize < ts * 16 || ts < 16 {
      NothingBefore(src[sp..sp + whole], dst[dp..dp + whole], ts, n);
      ElementsOfNone(ts);
      UnshuffleGeneric(ts, 0, blocksize, src, sp, dst, dp);
      return;
    }
    var ve := Elements(ts, vb);
    Unshuffle16Tiled(ve, n, ts, src, sp, dst, dp, whole);
    BoxIsBefore(src[sp..sp + whole], dst[dp..dp + whole], ts, n, ve, 0);
    if vb < blocksize {
      UnshuffleGeneric(ts, vb, blocksize, src, sp, dst, dp);
    } else {
      ghost var s, d := src[sp..sp + blocksize], dst[dp..dp + blocksize];
      BoxIsAll(s, d, ts, n);
      assert s[..whole] == s && d[..whole] == d && s[whole..] == d[whole..] == [];
      IsUnshuffled(ts, s, d, whole);
    }
  }

  lemma NothingBefore(s: seq<byte>, d: seq<byte>, n: nat, m: nat)
    requires |s| == |d| == n * m
    ensures Before(s, d, n, m, 0, 0)
  {
  }

  lemma ElementsOfNone(ts: nat)
    requires ts > 0
    ensures Elements(ts, 0) == 0
  {
  }
}
