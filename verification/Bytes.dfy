/** Bytes, the outcome of a decoder, and the sequence facts the codecs share. */
module Bytes {

  type byte = x: int | 0 <= x < 256 witness 0

  /** What a decoder does with an input: it returns the bytes it regenerated,
      it reports an error, or it reads past the input it was given. */
  datatype Outcome = Done(bytes: seq<byte>) | Failed | Overrun

  /** A prefix of a prefix, and the slice that follows it. */
  lemma SliceOfSlice<T>(s: seq<T>, lo: nat, hi: nat, end: nat)
    requires lo <= hi <= end <= |s|
    ensures s[..end][lo..hi] == s[lo..hi]
  {
  }

  lemma SliceInSlice<T>(s: seq<T>, lo: nat, hi: nat, from: nat, end: nat)
    requires lo <= hi <= |s| && from <= end <= hi - lo
    ensures s[lo..hi][from..end] == s[lo + from..lo + end]
  {
    forall k | 0 <= k < end - from
      ensures s[lo..hi][from..end][k] == s[lo + from..lo + end][k]
    {
      assert s[lo..hi][from + k] == s[lo + from + k];
    }
  }

  lemma SliceOfTail<T>(s: seq<T>, lo: nat, from: nat, end: nat)
    requires lo <= |s| && from <= end <= |s| - lo
    ensures s[lo..][from..end] == s[lo + from..lo + end]
  {
    forall k | 0 <= k < end - from
      ensures s[lo..][from..end][k] == s[lo + from..lo + end][k]
    {
      assert s[lo..][from + k] == s[lo + from + k];
    }
  }

  lemma SliceAt<T>(s: seq<T>, lo: nat, hi: nat, k: nat)
    requires lo <= k < hi <= |s|
    ensures s[lo..hi][k - lo] == s[k]
  {
  }

  lemma SliceConcat<T>(s: seq<T>, lo: nat, mid: nat, hi: nat)
    requires lo <= mid <= hi <= |s|
    ensures s[lo..mid] + s[mid..hi] == s[lo..hi]
  {
  }

  lemma ConcatAssoc<T>(a: seq<T>, b: seq<T>, c: seq<T>)
    ensures (a + b) + c == a + (b + c)
  {
  }

  /** memcpy between two buffers. */
  method Memcpy<T>(dst: array<T>, at: nat, src: array<T>, from: nat, n: nat)
    requires src != dst && from + n <= src.Length && at + n <= dst.Length
    modifies dst
    ensures dst[at..at + n] == src[from..from + n]
    ensures forall k :: 0 <= k < dst.Length && !(at <= k < at + n) ==> dst[k] == old(dst[k])
  {
    forall b | 0 <= b < n {
      dst[at + b] := src[from + b];
    }
  }
}
