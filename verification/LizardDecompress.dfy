/** Lizard_decompress_safe, step by step (lizard_decompress.c:72-270). */
module LizardDecompress {
  import opened Bytes
  import opened LittleEndian
  import opened LizardCodes
  import opened LizardDecoder
  import opened LizardContainer

  /** MEM_readLE24. */
  method Load24(src: array<byte>, ip: nat, end: nat) returns (v: nat)
    requires ip + 3 <= end <= src.Length
    ensures v == ReadLE24(src[ip..end])
  {
    ghost var s := src[ip..end];
    assert s[0] == src[ip] && s[1] == src[ip + 1] && s[2] == src[ip + 2];
    v := src[ip] as nat + 0x100 * src[ip + 1] as nat + 0x1_0000 * src[ip + 2] as nat;
  }

  /** Lizard_readStream. That the stream ends within the input is left to the caller. */
  method ReadStream(huff: bool, src: array<byte>, at: nat, iend: nat) returns (ok: bool, ip: nat, ptr: nat, end: nat)
    requires iend <= src.Length
    ensures ok <==> !huff && at + 3 <= iend
    ensures ok ==> ptr == at + 3 <= end == ip
    ensures at <= iend ==> ReadPart(huff, src[at..iend]) == if ok && end <= iend then PartRead(src[ptr..end], src[end..iend]) else NoPart
  {
    if huff || at as int > iend - 3 {
      return false, at, at, at;
    }
    var len := Load24(src, at, iend);
    ok, ptr := true, at + 3;
    end := ptr + len;
    ip := end;
    PartAt(src[..], at, len, iend);
  }

  lemma PartAt(s: seq<byte>, at: nat, len: nat, iend: nat)
    requires at + 3 <= iend <= |s| && len == ReadLE24(s[at..iend])
    ensures ReadPart(false, s[at..iend]) == if at + 3 + len <= iend then PartRead(s[at + 3..at + 3 + len], s[at + 3 + len..iend]) else NoPart
  {
    if at + 3 + len <= iend {
      SliceInSlice(s, at, iend, 3, 3 + len);
      SliceInSlice(s, at, iend, 3 + len, iend - at);
    }
  }

  /** The five streams of a block: where they are. */
  method ReadBlock(res: byte, src: array<byte>, at: nat, iend: nat) returns (ok: bool, ip: nat, d: DStream?)
    requires at <= iend <= src.Length
    ensures ok ==> d != null && fresh(d)
    ensures var b := ReadSections(res, src[at..iend]);
            if ok then ip <= iend && d.src == src && d.Valid() && d.lastOff == 0 && b == BlockRead(d.View(), src[ip..iend])
            else b.NoBlock?
  {
    hide ReadPart, ReadLE24, DStream.View, DStream.Valid;
    ip := at;
    ok, d := false, null;
    if res / 16 % 2 == 1 || ip as int > iend - 15 {
      return;
    }
    var p, e, p16, e16, p24, e24, pf, ef, pl, el: nat;
    ok, ip, p, e := ReadStream(false, src, ip, iend);
    ok := ok && e as int <= iend - 3;
    if ok {
      ok, ip, p16, e16 := ReadStream(res / 4 % 2 == 1, src, ip, iend);
      if ok {
        ok, ip, p24, e24 := ReadStream(res / 8 % 2 == 1, src, ip, iend);
        if ok {
          ok, ip, pf, ef := ReadStream(res / 2 % 2 == 1, src, ip, iend);
          if ok {
            ok, ip, pl, el := ReadStream(res % 2 == 1, src, ip, iend);
          }
        }
      }
    }
    ok := ok && ip <= iend;
    if ok {
      d := new DStream(src, (pf, ef), (pl, el), (p16, e16), (p24, e24));
    }
  }

  /** A stored block. */
  method CopyStored(src: array<byte>, at: nat, iend: nat, dest: array<byte>, start: nat, oend: nat) returns (ok: bool, ip: nat, op: nat)
    requires src != dest && at <= iend <= src.Length && start <= oend <= dest.Length
    modifies dest
    ensures var r := ReadPart(false, src[at..iend]);
            if ok then
              at < ip <= iend && start <= op <= oend && r.PartRead? && r.rest == src[ip..iend] && dest[..op] == old(dest[..start]) + r.x
            else r.NoPart? || start + |r.x| > oend
    ensures forall k :: oend <= k < dest.Length ==> dest[k] == old(dest[k])
  {
    ok, ip, op := false, at, start;
    if ip as int > iend - 3 {
      return;
    }
    var length := Load24(src, ip, iend);
    PartAt(src[..], at, length, iend);
    assert src[..][at..iend] == src[at..iend];
    ip := ip + 3;
    if ip + length > iend || op + length > oend {
      return;
    }
    Memcpy(dest, op, src, ip, length);
    assert dest[..op + length] == dest[..op] + dest[op..op + length];
    ok, ip, op := true, ip + length, op + length;
  }

  /** Lizard_decompress_generic, without dictionary and in full. */
  method Decompress(src: array<byte>, inputSize: nat, dest: array<byte>, maxOut: nat) returns (r: int)
    requires src != dest && inputSize <= src.Length && maxOut <= dest.Length
    requires DecodeAll(src[..inputSize], maxOut) != Unknown
    modifies dest
    ensures var d := DecodeAll(old(src[..inputSize]), maxOut);
            if d.Regenerated? then r == |d.bytes| <= maxOut && dest[..r] == d.bytes
            else if d.Empty? then r == 0
            else r < 0
    ensures forall k :: maxOut <= k < dest.Length ==> dest[k] == old(dest[k])
  {
    if inputSize < 1 {
      return 0;
    }
    var level := src[0];
    if level < MIN_CLEVEL || level > MAX_CLEVEL {
      return -1;
    }
    assert src[..inputSize][1..] == src[1..inputSize];
    assert dest[..0] == [];
    r := DecompressBlocks(KindOf(level), src, inputSize, dest, maxOut);
  }

  method DecompressBlocks(kind: Codewords, src: array<byte>, iend: nat, dest: array<byte>, maxOut: nat) returns (r: int)
    requires src != dest && 1 <= iend <= src.Length && maxOut <= dest.Length
    requires DecodeBlocks(kind, src[1..iend], dest[..0], maxOut, maxOut) != Unknown
    modifies dest
    ensures var d := DecodeBlocks(kind, old(src[1..iend]), [], maxOut, maxOut);
            if d.Regenerated? then r == |d.bytes| <= maxOut && dest[..r] == d.bytes
            else if d.Empty? then r == 0
            else r < 0
    ensures forall k :: maxOut <= k < dest.Length ==> dest[k] == old(dest[k])
  {
    hide *;
    var ip: nat, op: nat, outputSize: int := 1, 0, maxOut;
    while ip < iend
      invariant ip <= iend && op <= maxOut
      invariant DecodeBlocks(kind, src[ip..iend], dest[..op], outputSize, maxOut) == old(DecodeBlocks(kind, src[1..iend], dest[..0], maxOut, maxOut))
      invariant forall k :: maxOut <= k < dest.Length ==> dest[k] == old(dest[k])
      decreases iend - ip
    {
      var res := src[ip];
      ghost var s, out := src[ip..iend], dest[..op];
      assert s[1..] == src[ip + 1..iend] && s[0] == res;
      ip := ip + 1;
      var ok;
      if res == FLAG_UNCOMPRESSED {
        StoredStep(kind, s, out, outputSize, maxOut);
        ok, ip, op := CopyStored(src, ip, iend, dest, op, maxOut);
        if !ok {
          return -1;
        }
      } else {
        var d;
        PackedStep(kind, s, out, outputSize, maxOut);
        ok, ip, d := ReadBlock(res, src, ip, iend);
        if !ok {
          return -1;
        }
        var n := d.Decompress(kind, dest, op, Limits(op + outputSize, maxOut));
        if n <= 0 {
          return n;
        }
        op, outputSize := op + n, outputSize - n;
      }
    }
    NoMore(kind, dest[..op], outputSize, maxOut);
    assert src[iend..iend] == [];
    r := op;
  }

  lemma NoMore(kind: Codewords, out: seq<byte>, room: int, cap: nat)
    ensures DecodeBlocks(kind, [], out, room, cap) == Regenerated(out)
  {
  }
}
