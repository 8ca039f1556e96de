/** Numbers stored least significant byte first. */
module LittleEndian {
  import opened Bytes

  const TWO64: nat := 0x1_0000_0000_0000_0000

  function ReadLE32(b: seq<byte>): (v: nat)
    requires |b| >= 4
    ensures v < 0x1_0000_0000
  {
    b[0] as int + 0x100 * b[1] as int + 0x1_0000 * b[2] as int + 0x100_0000 * b[3] as int
  }

  lemma ReadLE32Prefix(b: seq<byte>, n: nat)
    requires 4 <= n <= |b|
    ensures ReadLE32(b[..n]) == ReadLE32(b)
  {
  }

  function ReadLE64(b: seq<byte>): (v: nat)
    requires |b| >= 8
    ensures v < TWO64
  {
    ReadLE32(b[..4]) + 0x1_0000_0000 * ReadLE32(b[4..8])
  }

  function WriteLE32(v: nat): (b: seq<byte>)
    requires v < 0x1_0000_0000
    ensures |b| == 4
  {
    [v % 0x100, v / 0x100 % 0x100, v / 0x1_0000 % 0x100, v / 0x100_0000]
  }

  function WriteLE64(v: nat): (b: seq<byte>)
    requires v < TWO64
    ensures |b| == 8
  {
    WriteLE32(v % 0x1_0000_0000) + WriteLE32(v / 0x1_0000_0000)
  }

  lemma LE32RoundTrip(v: nat)
    requires v < 0x1_0000_0000
    ensures ReadLE32(WriteLE32(v)) == v
  {
    var q := v / 0x100;
    var r := q / 0x100;
    assert v / 0x1_0000 == r && v / 0x100_0000 == r / 0x100;
    assert v == v % 0x100 + 0x100 * q && q == q % 0x100 + 0x100 * r && r == r % 0x100 + 0x100 * (r / 0x100);
  }

  lemma LE64RoundTrip(v: nat)
    requires v < TWO64
    ensures ReadLE64(WriteLE64(v)) == v
  {
    var lo, hi := WriteLE32(v % 0x1_0000_0000), WriteLE32(v / 0x1_0000_0000);
    LE32RoundTrip(v % 0x1_0000_0000);
    LE32RoundTrip(v / 0x1_0000_0000);
    assert WriteLE64(v)[..4] == lo && WriteLE64(v)[4..8] == hi;
  }

  function ReadLE16(b: seq<byte>): (v: nat)
    requires |b| >= 2
    ensures v < 0x1_0000
  {
    b[0] as int + 0x100 * b[1] as int
  }

  function ReadLE24(b: seq<byte>): (v: nat)
    requires |b| >= 3
    ensures v < 0x100_0000
  {
    b[0] as int + 0x100 * b[1] as int + 0x1_0000 * b[2] as int
  }

  function WriteLE16(v: nat): (b: seq<byte>)
    requires v < 0x1_0000
    ensures |b| == 2
  {
    [v % 0x100, v / 0x100]
  }

  function WriteLE24(v: nat): (b: seq<byte>)
    requires v < 0x100_0000
    ensures |b| == 3
  {
    [v % 0x100, v / 0x100 % 0x100, v / 0x1_0000]
  }

  lemma LE16RoundTrip(v: nat, rest: seq<byte>)
    requires v < 0x1_0000
    ensures ReadLE16(WriteLE16(v) + rest) == v
  {
  }

  lemma LE24RoundTrip(v: nat, rest: seq<byte>)
    requires v < 0x100_0000
    ensures ReadLE24(WriteLE24(v) + rest) == v
  {
  }
}
