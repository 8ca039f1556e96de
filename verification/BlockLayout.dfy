/** How a buffer is cut into blocks: all have the same size but the last one, which can be
    shorter (c-blosc2/blosc/blosc.c:945-964, 1184-1190, 1251-1256). */
module BlockLayout {
  import opened Arithmetic

  function Nblocks(total: nat, blocksize: nat): nat
    requires blocksize > 0
  {
    total / blocksize + if total % blocksize > 0 then 1 else 0
  }

  function Leftover(total: nat, blocksize: nat): nat
    requires blocksize > 0
  {
    total % blocksize
  }

  /** Whether block `b` is the shorter one at the end. */
  predicate IsLeftover(total: nat, blocksize: nat, b: nat)
    requires blocksize > 0
  {
    b + 1 == Nblocks(total, blocksize) && Leftover(total, blocksize) > 0
  }

  /** The number of bytes in block `b`. */
  function Bsize(total: nat, blocksize: nat, b: nat): nat
    requires blocksize > 0
  {
    if IsLeftover(total, blocksize, b) then Leftover(total, blocksize) else blocksize
  }

  function Offset(blocksize: nat, b: nat): nat {
    b * blocksize
  }

  /** The blocks lie one after another, from the beginning to the end. */
  lemma BlocksLine(total: nat, blocksize: nat, b: nat)
    requires blocksize > 0 && b < Nblocks(total, blocksize)
    ensures 0 < Bsize(total, blocksize, b) <= blocksize
    ensures Offset(blocksize, b) + Bsize(total, blocksize, b) <= total
    ensures b + 1 < Nblocks(total, blocksize) ==>
              Bsize(total, blocksize, b) == blocksize && Offset(blocksize, b + 1) == Offset(blocksize, b) + blocksize
    ensures b + 1 == Nblocks(total, blocksize) ==> Offset(blocksize, b) + Bsize(total, blocksize, b) == total
    ensures Bsize(total, blocksize, b) < blocksize ==> b + 1 == Nblocks(total, blocksize)
    ensures b > 0 ==> blocksize <= Offset(blocksize, b)
  {
    var q, r := total / blocksize, total % blocksize;
    assert total == q * blocksize + r;
    ProductGrows(b + 1, q, blocksize);
    ProductGrows(1, b, blocksize);
    assert (b + 1) * blocksize == b * blocksize + blocksize;
    if b + 1 == Nblocks(total, blocksize) && r == 0 {
      assert q == b + 1;
    }
  }

  /** Every byte of the buffer is in a block. */
  lemma BlockOf(total: nat, blocksize: nat, k: nat) returns (b: nat)
    requires blocksize > 0 && k < total
    ensures b < Nblocks(total, blocksize)
    ensures Offset(blocksize, b) <= k < Offset(blocksize, b) + Bsize(total, blocksize, b)
  {
    var q, r := total / blocksize, total % blocksize;
    var s := k % blocksize;
    b := k / blocksize;
    assert k == b * blocksize + s && total == q * blocksize + r;
    LessDigits(blocksize, b, s, q, r);
  }

  lemma LessDigits(n: nat, b: nat, s: nat, q: nat, r: nat)
    requires s < n && r < n && b * n + s < q * n + r
    ensures b < q || (b == q && s < r)
  {
    ProductGrows(q + 1, b, n);
  }

  lemma NoBlocks(total: nat, blocksize: nat)
    requires blocksize > 0
    ensures Nblocks(total, blocksize) == 0 <==> total == 0
    ensures Offset(blocksize, 0) == 0
    ensures Nblocks(total, blocksize) <= total
  {
    if total > 0 {
      assert total == total / blocksize * blocksize + total % blocksize;
      ProductGrows(1, blocksize, total / blocksize);
    }
  }
}
