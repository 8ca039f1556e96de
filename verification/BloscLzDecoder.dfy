/** blosclz_decompress (c-blosc2/blosc/blosclz.c:421-505): what it computes, as a
    function of its input, and the loop with its block copies that computes it. */
module BloscLzDecoder {
  import opened Bytes
  import opened LzCopy
  import opened BloscLzFormat

  /** The operands of a match; `back` is its distance less one. */
  datatype Operand = Short | Operand(len: nat, back: nat, next: nat)

  /** Add up length bytes from `ip`; a byte below 255 is the last. */
  function ReadExt(s: seq<byte>, ip: nat, len: nat): (r: Operand)
    ensures r.Operand? ==> ip < r.next <= |s|
    decreases |s| - ip
  {
    if ip >= |s| then Short
    else if s[ip] == 255 then ReadExt(s, ip + 1, len + 255)
    else Operand(len + s[ip], 0, ip + 1)
  }

  /** The operands that follow the control byte of a match. */
  function ReadMatch(s: seq<byte>, ip: nat, ctrl: byte): (r: Operand)
    requires ctrl >= 32
    ensures r.Operand? ==> ip < r.next <= |s|
  {
    var ofs := ctrl % 32 * 256;
    var ext := if ctrl / 32 == 7 then ReadExt(s, ip, 6) else Operand(ctrl / 32 - 1, 0, ip);
    if ext.Short? || ext.next >= |s| then Short
    else
      var code := s[ext.next];
      if code == 255 && ofs == 31 * 256 then
        if ext.next + 2 >= |s| then Short
        else
          Operand(ext.len, s[ext.next + 1] * 256 + s[ext.next + 2] + MAX_DISTANCE, ext.next + 3)
      else
        Operand(ext.len, ofs + code, ext.next + 1)
  }

  /** Decoding goes on at `ip` with control byte `ctrl`, `out` regenerated so far
      and room for `cap` bytes in all. */
  function Run(s: seq<byte>, ip: nat, ctrl: byte, out: seq<byte>, cap: nat): Outcome
    requires ip <= |s|
    decreases |s| - ip
  {
    if ctrl >= 32 then
      match ReadMatch(s, ip, ctrl)
      case Short => Overrun
      case Operand(len, back, next) =>
        if |out| + len + 3 > cap || back + 1 > |out| then Failed
        else Continue(s, next, CopyMatch(out, back + 1, len + 3), cap)
    else
      var n := ctrl + 1;
      if |out| + n > cap || ip + n > |s| then Failed
      else Continue(s, ip + n, out + s[ip..ip + n], cap)
  }

  /** The next control byte, if the input has one. */
  function Continue(s: seq<byte>, ip: nat, out: seq<byte>, cap: nat): Outcome
    requires ip <= |s|
    decreases |s| - ip, 0
  {
    if ip < |s| then Run(s, ip + 1, s[ip], out, cap) else Done(out)
  }

  /** The outcome of decompressing `s` into a buffer of `cap` bytes. The marker in
      the first byte is masked off. */
  function Decode(s: seq<byte>, cap: nat): Outcome {
    if s == [] then Overrun else Run(s, 1, s[0] % 32, [], cap)
  }

  /** The loop over the length bytes. */
  method ReadLength(input: array<byte>, length: nat, start: nat) returns (len: nat, ip: nat)
    requires length <= input.Length
    requires ReadExt(input[..length], start, 6).Operand?
    ensures ReadExt(input[..length], start, 6) == Operand(len, 0, ip)
  {
    len, ip := 6, start;
    var code := 255;
    while code == 255
      invariant code == 255 ==> ReadExt(input[..length], start, 6) == ReadExt(input[..length], ip, len)
      invariant code != 255 ==> ReadExt(input[..length], start, 6) == Operand(len, 0, ip)
      decreases length - ip, code == 255
    {
      code := input[ip];
      ip := ip + 1;
      len := len + code;
    }
  }

  /** The operands of a match, read off the input. */
  method ReadOperands(input: array<byte>, length: nat, start: nat, ctrl: byte)
    returns (len: nat, back: nat, ip: nat)
    requires ctrl >= 32 && length <= input.Length
    requires ReadMatch(input[..length], start, ctrl).Operand?
    ensures ReadMatch(input[..length], start, ctrl) == Operand(len, back, ip)
  {
    var ofs: nat := ctrl % 32 * 256;
    len, ip := ctrl / 32 - 1, start;
    if len == 7 - 1 {
      len, ip := ReadLength(input, length, ip);
    }
    var code := input[ip];
    ip := ip + 1;
    back := ofs + code;
    if code == 255 && ofs == 31 * 256 {
      ofs := input[ip] as int * 256;
      ofs := ofs + input[ip + 1];
      ip := ip + 2;
      back := ofs + MAX_DISTANCE;
    }
  }

  /** Copy a match: a run is filled, anything else is copied from its reference. */
  method CopyRef(output: array<byte>, op: nat, back: nat, len: nat, maxout: nat)
    requires back + 1 <= op && op + len + 3 <= maxout <= output.Length
    modifies output
    ensures output[..op + len + 3] == CopyMatch(old(output[..op]), back + 1, len + 3)
    ensures forall k :: maxout <= k < output.Length ==> output[k] == old(output[k])
  {
    hide CopyMatch;
    if back == 0 {
      FillRun(output, op, len + 3);
    } else {
      CopyWithin(output, op, back + 1, len + 3, maxout);
    }
  }

  /** Copy a run of literals. */
  method CopyLiterals(input: array<byte>, ip: nat, output: array<byte>, op: nat, run: nat, maxout: nat)
    requires input != output && 1 <= run
    requires ip + run + CPYSIZE - 1 <= input.Length && op + run <= maxout <= output.Length
    modifies output
    ensures output[..op + run] == old(output[..op]) + input[ip..ip + run]
    ensures forall k :: maxout <= k < output.Length ==> output[k] == old(output[k])
  {
    BlockCopy(output, op, input, ip, run, maxout);
  }

  /** One turn of the loop: the instruction with control byte `ctrl` is carried
      out, or the output has no room or no byte for it to refer to. */
  method DecodeIns(input: array<byte>, length: nat, start: nat, ctrl: byte,
                   output: array<byte>, at: nat, maxout: nat)
    returns (ok: bool, ip: nat, op: nat)
    requires input != output && at <= maxout <= output.Length
    requires start <= length && length + CPYSIZE - 1 <= input.Length
    requires Run(input[..length], start, ctrl, output[..at], maxout) != Overrun
    modifies output
    ensures var before := old(Run(input[..length], start, ctrl, output[..at], maxout));
            if ok then
              && start < ip <= length && op <= maxout
              && before == Continue(old(input[..length]), ip, output[..op], maxout)
            else before == Failed
    ensures forall k :: maxout <= k < output.Length ==> output[k] == old(output[k])
  {
    hide ReadMatch, Continue, CopyMatch;
    ghost var s := input[..length];
    if ctrl >= 32 {
      var len, back, next := ReadOperands(input, length, start, ctrl);
      if at + len + 3 > maxout || back + 1 > at {
        return false, start, at;
      }
      CopyRef(output, at, back, len, maxout);
      return true, next, at + len + 3;
    } else {
      var run := ctrl + 1;
      if at + run > maxout || start + run > length {
        return false, start, at;
      }
      CopyLiterals(input, start, output, at, run, maxout);
      assert s[start..start + run] == old(input[start..start + run]);
      return true, start + run, at + run;
    }
  }

  lemma DecodeStarts(s: seq<byte>, cap: nat)
    requires Decode(s, cap) != Overrun
    ensures s != [] && Decode(s, cap) == Run(s, 1, s[0] % 32, [], cap)
  {
  }

  lemma ContinueMeans(s: seq<byte>, ip: nat, out: seq<byte>, cap: nat)
    requires ip <= |s|
    ensures Continue(s, ip, out, cap) == if ip < |s| then Run(s, ip + 1, s[ip], out, cap) else Done(out)
  {
  }

  /** blosclz_decompress on any input whose codewords it reads within bounds. The
      literal copies read up to CPYSIZE - 1 bytes past the input, which `input`
      must have. Nothing is written at or after `maxout`. */
  method Decompress(input: array<byte>, length: nat, output: array<byte>, maxout: nat) returns (n: nat)
    requires input != output && maxout <= output.Length
    requires length + CPYSIZE - 1 <= input.Length
    requires Decode(input[..length], maxout) != Overrun
    modifies output
    ensures match Decode(input[..length], maxout)
            case Done(out) => n == |out| && n <= maxout && output[..n] == out
            case _ => n == 0
    ensures forall k :: maxout <= k < output.Length ==> output[k] == old(output[k])
  {
    hide Run, Decode, Continue, ReadMatch, CopyMatch;
    ghost var s := input[..length];
    DecodeStarts(s, maxout);
    assert output[..0] == [];
    var ip: nat, op: nat := 1, 0;
    var ctrl: byte := input[0] % 32;
    var loop := true;
    while loop
      invariant ip <= length && op <= maxout && input[..length] == s
      invariant loop ==> Run(s, ip, ctrl, output[..op], maxout) == Decode(s, maxout)
      invariant !loop ==> Done(output[..op]) == Decode(s, maxout)
      invariant forall k :: maxout <= k < output.Length ==> output[k] == old(output[k])
      decreases length - ip, loop
    {
      var ok;
      ok, ip, op := DecodeIns(input, length, ip, ctrl, output, op, maxout);
      assert input[..length] == s;
      if !ok {
        return 0;
      }
      ContinueMeans(s, ip, output[..op], maxout);
      loop := ip < length;
      if loop {
        ctrl := input[ip];
        ip := ip + 1;
      }
    }
    n := op;
  }
}
