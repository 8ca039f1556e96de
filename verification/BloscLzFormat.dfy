/** The BloscLZ stream: its instructions, their bytes and their meaning
    (c-blosc2/blosc/blosclz.c). */
module BloscLzFormat {
  import opened Bytes
  import opened LzCopy

  const MAX_COPY: nat := 32
  const MAX_DISTANCE: nat := 8191
  const MAX_FARDISTANCE: nat := 65535 + MAX_DISTANCE - 1

  /** A run of literals, or `len` bytes copied from `dist` bytes back. */
  datatype Ins = Lit(bytes: seq<byte>) | Match(len: nat, dist: nat)

  predicate LegalIns(i: Ins) {
    match i
    case Lit(b) => 1 <= |b| <= MAX_COPY
    case Match(len, dist) => 3 <= len && 1 <= dist < MAX_FARDISTANCE
  }

  /** Length bytes: 255 as long as another byte follows. */
  function Ext(n: nat): (r: seq<byte>)
    ensures |r| == n / 255 + 1
  {
    if n >= 255 then [255] + Ext(n - 255) else [n]
  }

  /** The control byte of a match: three bits of length, five of distance. */
  function Head(len: nat, dist: nat): (r: byte)
    requires 3 <= len && 1 <= dist
    ensures r >= 32
    ensures r / 32 == if len < 9 then len - 2 else 7
    ensures r % 32 == if dist <= MAX_DISTANCE then (dist - 1) / 256 else 31
  {
    (if len < 9 then len - 2 else 7) * 32 + (if dist <= MAX_DISTANCE then (dist - 1) / 256 else 31)
  }

  /** The distance bytes of a match: one for a near match, three for a far one. */
  function DistBytes(dist: nat): (r: seq<byte>)
    requires 1 <= dist < MAX_FARDISTANCE
    ensures |r| == if dist <= MAX_DISTANCE then 1 else 3
  {
    if dist <= MAX_DISTANCE then [(dist - 1) % 256]
    else
      var f := dist - 1 - MAX_DISTANCE;
      [255, f / 256, f % 256]
  }

  function LenBytes(len: nat): (r: seq<byte>)
    requires 3 <= len
    ensures |r| == if len < 9 then 0 else (len - 9) / 255 + 1
  {
    if len < 9 then [] else Ext(len - 9)
  }

  /** The first byte of an instruction, which tells literals from matches. */
  function Ctrl(i: Ins): byte
    requires LegalIns(i)
  {
    match i case Lit(b) => |b| - 1 case Match(len, dist) => Head(len, dist)
  }

  /** The bytes after the first. */
  function Operands(i: Ins): seq<byte>
    requires LegalIns(i)
  {
    match i case Lit(b) => b case Match(len, dist) => LenBytes(len) + DistBytes(dist)
  }

  /** The bytes of an instruction. Lengths are biased by 2 and distances by 1. */
  function InsBytes(i: Ins): (r: seq<byte>)
    requires LegalIns(i)
    ensures |r| == 1 + |Operands(i)| && r[0] == Ctrl(i) && r[1..] == Operands(i)
  {
    [Ctrl(i)] + Operands(i)
  }

  /** The instructions of a stream, in the order they were written. */
  datatype Prog = Start | Then(init: Prog, ins: Ins)

  /** How many bytes a program stands for. */
  function Size(p: Prog): nat {
    match p
    case Start => 0
    case Then(q, Lit(b)) => Size(q) + |b|
    case Then(q, Match(len, _)) => Size(q) + len
  }

  /** The first instruction is a run of literals, and every match reaches back
      into what the instructions before it produced. */
  predicate Legal(p: Prog) {
    match p
    case Start => true
    case Then(q, i) => Legal(q) && LegalIns(i) && (i.Match? ==> i.dist <= Size(q))
  }

  /** The stream of a program, without the marker in its first byte. */
  function Stream(p: Prog): seq<byte>
    requires Legal(p)
  {
    match p case Start => [] case Then(q, i) => Stream(q) + InsBytes(i)
  }

  /** What an instruction does to the output. */
  function Apply(out: seq<byte>, i: Ins): (r: seq<byte>)
    requires i.Match? ==> 1 <= i.dist <= |out|
    ensures |r| == |out| + if i.Lit? then |i.bytes| else i.len
  {
    match i case Lit(b) => out + b case Match(len, dist) => CopyMatch(out, dist, len)
  }

  /** What a program stands for. */
  function Expand(p: Prog): (r: seq<byte>)
    requires Legal(p)
    ensures |r| == Size(p)
  {
    match p case Start => [] case Then(q, i) => Apply(Expand(q), i)
  }

  /** The stream as written: the encoder sets bit 5 of the first byte. */
  function Mark(s: seq<byte>): seq<byte>
    requires s != [] && s[0] < 32
  {
    [s[0] + 32] + s[1..]
  }
}
