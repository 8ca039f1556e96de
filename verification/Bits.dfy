/** The bits of bytes, exclusive or, and the transpose of eight bytes as an 8x8 matrix of
    bits (c-blosc2/blosc/bitshuffle-generic.h:42-49). */
module Bits {
  import opened Bytes

  /** The lowest `len` bits of a number, least significant first. */
  function Binary(n: nat, len: nat): (bit: seq<bool>)
    ensures |bit| == len
    decreases len
  {
    if len == 0 then [] else [n % 2 == 1] + Binary(n / 2, len - 1)
  }

  function Number(bit: seq<bool>): nat {
    if bit == [] then 0 else (if bit[0] then 1 else 0) + 2 * Number(bit[1..])
  }

  function Power(len: nat): nat {
    if len == 0 then 1 else 2 * Power(len - 1)
  }

  lemma {:induction false} NumberOfBinary(n: nat, len: nat)
    requires n < Power(len)
    ensures Number(Binary(n, len)) == n
    decreases len
  {
    if len > 0 {
      NumberOfBinary(n / 2, len - 1);
      assert Binary(n, len)[1..] == Binary(n / 2, len - 1);
    }
  }

  lemma {:induction false} BinaryOfNumber(bit: seq<bool>)
    ensures Number(bit) < Power(|bit|) && Binary(Number(bit), |bit|) == bit
  {
    if bit != [] {
      BinaryOfNumber(bit[1..]);
      assert Number(bit) / 2 == Number(bit[1..]);
      assert [bit[0]] + bit[1..] == bit;
    }
  }

  lemma EightBits()
    ensures Power(8) == 256
  {
    assert Power(4) == 16;
    assert Power(6) == 64;
  }

  /** Bit `k` of a byte, from the least significant one. */
  predicate Bit(b: byte, k: nat)
    requires k < 8
  {
    Binary(b, 8)[k]
  }

  /** The byte with the given bits. */
  function Byte(bit: seq<bool>): byte
    requires |bit| == 8
  {
    BinaryOfNumber(bit);
    EightBits();
    Number(bit)
  }

  lemma ByteBit(bit: seq<bool>, k: nat)
    requires |bit| == 8 && k < 8
    ensures Bit(Byte(bit), k) <==> bit[k]
  {
    BinaryOfNumber(bit);
  }

  /** A byte is its eight bits. */
  lemma BitsDecide(a: byte, b: byte)
    requires forall k :: 0 <= k < 8 ==> (Bit(a, k) <==> Bit(b, k))
    ensures a == b
  {
    hide Binary, Number, Power;
    EightBits();
    NumberOfBinary(a, 8);
    NumberOfBinary(b, 8);
    assert forall k :: 0 <= k < 8 && Bit(a, k) == Bit(b, k) ==> Binary(a, 8)[k] == Binary(b, 8)[k];
    assert Binary(a, 8) == Binary(b, 8);
  }

  // ----- Exclusive or -----

  function Xor(a: byte, b: byte): byte {
    Byte(seq(8, k requires 0 <= k < 8 => Bit(a, k) != Bit(b, k)))
  }

  lemma XorBit(a: byte, b: byte, k: nat)
    requires k < 8
    ensures Bit(Xor(a, b), k) <==> Bit(a, k) != Bit(b, k)
  {
    hide Bit, Byte;
    ByteBit(seq(8, j requires 0 <= j < 8 => Bit(a, j) != Bit(b, j)), k);
  }

  /** What was XORed with the same byte twice is as it was. */
  lemma XorTwice(a: byte, b: byte)
    ensures Xor(Xor(a, b), b) == a
  {
    hide Bit, Xor;
    forall k | 0 <= k < 8
      ensures Bit(Xor(Xor(a, b), b), k) <==> Bit(a, k)
    {
      XorBit(a, b, k);
      XorBit(Xor(a, b), b, k);
    }
    BitsDecide(Xor(Xor(a, b), b), a);
  }

  // ----- Words of 64 bits, least significant first -----

  type word = w: seq<bool> | |w| == 64 witness seq(64, _ => false)

  /** A little-endian load of eight bytes. */
  function Load(s: seq<byte>): word
    requires |s| == 8
  {
    seq(64, i requires 0 <= i < 64 => Bit(s[i / 8], i % 8))
  }

  function Shr(w: word, n: nat): word {
    seq(64, i requires 0 <= i < 64 => i + n < 64 && w[i + n])
  }

  function Shl(w: word, n: nat): word {
    seq(64, i requires 0 <= i < 64 => i >= n && w[i - n])
  }

  function And(v: word, w: word): word {
    seq(64, i requires 0 <= i < 64 => v[i] && w[i])
  }

  function XorWords(v: word, w: word): word {
    seq(64, i requires 0 <= i < 64 => v[i] != w[i])
  }

  /** The byte that storing a word in a byte keeps. */
  function Low(w: word): byte {
    Byte(w[..8])
  }

  /** t = (x ^ (x >> n)) & mask; x = x ^ t ^ (t << n); */
  function Exchange(x: word, n: nat, mask: word): word {
    var t := And(XorWords(x, Shr(x, n)), mask);
    XorWords(XorWords(x, t), Shl(t, n))
  }

  /** The masks 0x00AA00AA00AA00AA, 0x0000CCCC0000CCCC and 0x00000000F0F0F0F0. */
  function Mask7(): word {
    Load([0xAA, 0x00, 0xAA, 0x00, 0xAA, 0x00, 0xAA, 0x00])
  }

  function Mask14(): word {
    Load([0xCC, 0xCC, 0x00, 0x00, 0xCC, 0xCC, 0x00, 0x00])
  }

  function Mask28(): word {
    Load([0xF0, 0xF0, 0xF0, 0xF0, 0x00, 0x00, 0x00, 0x00])
  }

  /** TRANS_BIT_8X8. */
  function Transpose(x: word): word {
    Exchange(Exchange(Exchange(x, 7, Mask7()), 14, Mask14()), 28, Mask28())
  }

  function Value(bit: bool): nat {
    if bit then 1 else 0
  }

  lemma EightNumber(bit: seq<bool>)
    requires |bit| == 8
    ensures Byte(bit) == Value(bit[0]) + 2 * Value(bit[1]) + 4 * Value(bit[2]) + 8 * Value(bit[3])
                         + 16 * Value(bit[4]) + 32 * Value(bit[5]) + 64 * Value(bit[6]) + 128 * Value(bit[7])
  {
    assert Number(bit[7..]) == Value(bit[7]);
    assert bit[6..][1..] == bit[7..] && Number(bit[6..]) == Value(bit[6]) + 2 * Number(bit[7..]);
    assert bit[5..][1..] == bit[6..] && Number(bit[5..]) == Value(bit[5]) + 2 * Number(bit[6..]);
    assert bit[4..][1..] == bit[5..] && Number(bit[4..]) == Value(bit[4]) + 2 * Number(bit[5..]);
    assert bit[3..][1..] == bit[4..] && Number(bit[3..]) == Value(bit[3]) + 2 * Number(bit[4..]);
    assert bit[2..][1..] == bit[3..] && Number(bit[2..]) == Value(bit[2]) + 2 * Number(bit[3..]);
    assert bit[1..][1..] == bit[2..] && Number(bit[1..]) == Value(bit[1]) + 2 * Number(bit[2..]);
  }

  lemma MaskBits(k: nat)
    requires k < 8
    ensures !Bit(0, k) && (Bit(0xAA, k) <==> k % 2 == 1) && (Bit(0xCC, k) <==> k % 4 >= 2) && (Bit(0xF0, k) <==> k >= 4)
  {
    hide Bit, Byte;
    var zero := seq(8, _ => false);
    var odd, upperTwo, upperFour := seq(8, k => k % 2 == 1), seq(8, k => k % 4 >= 2), seq(8, k => k >= 4);
    EightNumber(zero);
    EightNumber(odd);
    EightNumber(upperTwo);
    EightNumber(upperFour);
    ByteBit(zero, k);
    ByteBit(odd, k);
    ByteBit(upperTwo, k);
    ByteBit(upperFour, k);
  }

  /** The number with three given bits, highest first. */
  function Three(b2: bool, b1: bool, b0: bool): (n: nat)
    ensures n < 8
  {
    (if b2 then 4 else 0) + (if b1 then 2 else 0) + if b0 then 1 else 0
  }

  /** The bit in column `r` of row `c`, both given by their own bits. */
  function Square(c2: bool, c1: bool, c0: bool, r2: bool, r1: bool, r0: bool): (i: nat)
    ensures i < 64
  {
    8 * Three(c2, c1, c0) + Three(r2, r1, r0)
  }

  lemma MasksAre(c: nat, r: nat)
    requires c < 8 && r < 8
    ensures Mask7()[8 * c + r] <==> c % 2 == 0 && r % 2 == 1
    ensures Mask14()[8 * c + r] <==> c % 4 < 2 && r % 4 >= 2
    ensures Mask28()[8 * c + r] <==> c < 4 && r >= 4
  {
    hide Bit;
    MaskBits(r);
  }

  /** Where the mask and the shifted mask do not meet, bits change places. */
  lemma ExchangedBit(x: word, n: nat, mask: word, i: nat)
    requires i < 64 && (mask[i] ==> i + n < 64 && !(i >= n && mask[i - n]))
    ensures Exchange(x, n, mask)[i]
        <==> if mask[i] then x[i + n] else if i >= n && mask[i - n] then x[i - n] else x[i]
  {
  }

  /** The masks, shifted by the distance of the bits that change places. */
  lemma MaskBefore7(c: nat, r: nat)
    requires c < 8 && r < 8
    ensures 8 * c + r >= 7 ==> (Mask7()[8 * c + r - 7] <==> c % 2 == 1 && r % 2 == 0)
  {
    hide *;
    if 8 * c + r >= 7 {
      var c2, r2 := Back(c, r, 1);
      MasksAre(c2, r2);
    }
  }

  lemma MaskBefore14(c: nat, r: nat)
    requires c < 8 && r < 8
    ensures 8 * c + r >= 14 ==> (Mask14()[8 * c + r - 14] <==> c % 4 >= 2 && r % 4 < 2)
  {
    hide *;
    if 8 * c + r >= 14 {
      var c2, r2 := Back(c, r, 2);
      MasksAre(c2, r2);
    }
  }

  lemma MaskBefore28(c: nat, r: nat)
    requires c < 8 && r < 8
    ensures 8 * c + r >= 28 ==> (Mask28()[8 * c + r - 28] <==> c >= 4 && r < 4)
  {
    hide *;
    if 8 * c + r >= 28 {
      var c2, r2 := Back(c, r, 4);
      MasksAre(c2, r2);
    }
  }

  /** The place that is seven times `k` bits before another. */
  lemma Back(c: nat, r: nat, k: nat) returns (c2: nat, r2: nat)
    requires c < 8 && r < 8 && (k == 1 || k == 2 || k == 4) && 8 * c + r >= 7 * k
    ensures c2 < 8 && r2 < 8 && 8 * c2 + r2 == 8 * c + r - 7 * k
    ensures if r + k < 8 then c2 == c - k && r2 == r + k else c2 == c - k + 1 && r2 == r + k - 8
  {
    if r + k < 8 {
      c2, r2 := c - k, r + k;
    } else {
      c2, r2 := c - k + 1, r + k - 8;
    }
  }

  /** The first exchange swaps the lowest bits of row and column number; the others the
      next ones. */
  lemma ExchangeOnes(x: word, c: nat, r: nat)
    requires c < 8 && r < 8
    ensures Exchange(x, 7, Mask7())[8 * c + r]
        <==> if c % 2 == 0 && r % 2 == 1 then x[8 * (c + 1) + (r - 1)]
             else if c % 2 == 1 && r % 2 == 0 then x[8 * (c - 1) + (r + 1)]
             else x[8 * c + r]
  {
    hide *;
    MasksAre(c, r);
    MaskBefore7(c, r);
    ExchangedBit(x, 7, Mask7(), 8 * c + r);
  }

  lemma ExchangeTwos(x: word, c: nat, r: nat)
    requires c < 8 && r < 8
    ensures Exchange(x, 14, Mask14())[8 * c + r]
        <==> if c % 4 < 2 && r % 4 >= 2 then x[8 * (c + 2) + (r - 2)]
             else if c % 4 >= 2 && r % 4 < 2 then x[8 * (c - 2) + (r + 2)]
             else x[8 * c + r]
  {
    hide *;
    MasksAre(c, r);
    MaskBefore14(c, r);
    ExchangedBit(x, 14, Mask14(), 8 * c + r);
  }

  lemma ExchangeFours(x: word, c: nat, r: nat)
    requires c < 8 && r < 8
    ensures Exchange(x, 28, Mask28())[8 * c + r]
        <==> if c < 4 && r >= 4 then x[8 * (c + 4) + (r - 4)]
             else if c >= 4 && r < 4 then x[8 * (c - 4) + (r + 4)]
             else x[8 * c + r]
  {
    hide *;
    MasksAre(c, r);
    MaskBefore28(c, r);
    ExchangedBit(x, 28, Mask28(), 8 * c + r);
  }

  /** The three exchanges make up the transpose of an 8x8 matrix of bits. */
  lemma TransposedSquare(x: word, c2: bool, c1: bool, c0: bool, r2: bool, r1: bool, r0: bool)
    ensures Transpose(x)[Square(c2, c1, c0, r2, r1, r0)] <==> x[Square(r2, r1, r0, c2, c1, c0)]
  {
    hide Exchange, Mask7, Mask14, Mask28;
    var x1 := Exchange(x, 7, Mask7());
    ExchangeFours(Exchange(x1, 14, Mask14()), Three(c2, c1, c0), Three(r2, r1, r0));
    ExchangeTwos(x1, Three(r2, c1, c0), Three(c2, r1, r0));
    ExchangeOnes(x, Three(r2, r1, c0), Three(c2, c1, r0));
  }

  lemma TransposedBit(x: word, c: nat, r: nat)
    requires c < 8 && r < 8
    ensures Transpose(x)[8 * c + r] <==> x[8 * r + c]
  {
    hide Transpose;
    TransposedSquare(x, c >= 4, c % 4 >= 2, c % 2 == 1, r >= 4, r % 4 >= 2, r % 2 == 1);
  }

  // ----- Eight bytes at a time -----

  /** The word after `k` shifts by eight. */
  function Shifted(x: word, k: nat): word {
    if k == 0 then x else Shr(Shifted(x, k - 1), 8)
  }

  lemma {:induction false} ShiftedBit(x: word, k: nat, r: nat)
    requires k < 8 && r < 64 - 8 * k
    ensures Shifted(x, k)[r] <==> x[8 * k + r]
  {
    if k > 0 {
      ShiftedBit(x, k - 1, r + 8);
    }
  }

  /** Byte `k` of the transposed word has, at bit `r`, the bit `k` of byte `r`. */
  lemma TransposedByte(s: seq<byte>, k: nat, r: nat)
    requires |s| == 8 && k < 8 && r < 8
    ensures Bit(Low(Shifted(Transpose(Load(s)), k)), r) <==> Bit(s[r], k)
  {
    hide Bit, Byte, Transpose, Shifted;
    var x := Transpose(Load(s));
    ByteBit(Shifted(x, k)[..8], r);
    ShiftedBit(x, k, r);
    TransposedBit(Load(s), k, r);
  }
}
