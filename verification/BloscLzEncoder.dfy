/** blosclz_compress (c-blosc2/blosc/blosclz.c:176-419). */
module BloscLzEncoder {
  import opened Bytes
  import opened LzCopy
  import opened BloscLzFormat
  import opened BloscLzDecoder
  import opened BloscLzRoundTrip
  import opened BloscLzGreedy

  /** The output while a run of literals is open: the stream of the finished
      program, a control byte in advance of the run, and the run so far. */
  ghost predicate Open(out: seq<byte>, p: Prog, copy: nat, src: seq<byte>, at: nat) {
    && Legal(p) && copy <= MAX_COPY && copy <= at <= |src|
    && out == Stream(p) + [MAX_COPY - 1] + src[at - copy..at]
    && Expand(p) == src[..at - copy]
  }

  /** The output when no run is open. */
  ghost predicate Closed(out: seq<byte>, p: Prog, src: seq<byte>, at: nat) {
    && Legal(p) && at <= |src|
    && out == Stream(p)
    && Expand(p) == src[..at]
  }

  /** Every byte of s[from..to) repeats the one `dist` before it. */
  ghost predicate Matches(s: seq<byte>, from: nat, to: nat, dist: nat) {
    && 1 <= dist <= from && to <= |s|
    && forall k :: from <= k < to ==> s[k] == s[k - dist]
  }

  lemma OpenGrows(out: seq<byte>, p: Prog, copy: nat, src: seq<byte>, at: nat)
    requires Open(out, p, copy, src, at) && copy < MAX_COPY && at < |src|
    ensures Open(out + [src[at]], p, copy + 1, src, at + 1)
  {
    hide Legal, Stream, Expand;
    ConcatAssoc(Stream(p) + [MAX_COPY - 1], src[at - copy..at], [src[at]]);
    assert src[at - copy..at + 1] == src[at - copy..at] + [src[at]];
  }

  lemma LiteralsFollow(p: Prog, lits: seq<byte>)
    requires Legal(p) && 1 <= |lits| <= MAX_COPY
    ensures Legal(Then(p, Lit(lits))) && Stream(Then(p, Lit(lits))) == Stream(p) + ([|lits| - 1] + lits)
    ensures Expand(Then(p, Lit(lits))) == Expand(p) + lits
  {
    hide InsBytes;
    LiteralBytes(lits);
  }

  lemma LiteralBytes(lits: seq<byte>)
    requires 1 <= |lits| <= MAX_COPY
    ensures InsBytes(Lit(lits)) == [|lits| - 1] + lits
  {
  }

  lemma CountPut(t: seq<byte>, count: byte, lits: seq<byte>)
    ensures (t + [MAX_COPY - 1] + lits)[|t| := count] == t + ([count] + lits)
  {
  }

  lemma OpenCloses(out: seq<byte>, p: Prog, copy: nat, src: seq<byte>, at: nat)
    requires Open(out, p, copy, src, at) && 1 <= copy
    ensures copy + 1 <= |out|
    ensures Closed(out[|out| - copy - 1 := copy - 1], Then(p, Lit(src[at - copy..at])), src, at)
  {
    hide Legal, Stream, Expand;
    var t, lits := Stream(p), src[at - copy..at];
    CountPut(t, copy - 1, lits);
    LiteralsFollow(p, lits);
    assert src[..at] == src[..at - copy] + lits;
  }

  lemma EmptyRunCloses(out: seq<byte>, p: Prog, src: seq<byte>, at: nat)
    requires Open(out, p, 0, src, at)
    ensures 1 <= |out| && Closed(out[..|out| - 1], p, src, at)
  {
    assert src[at..at] == [];
    assert (Stream(p) + [MAX_COPY - 1] + [])[..|Stream(p)|] == Stream(p);
  }

  lemma ClosedOpens(out: seq<byte>, p: Prog, src: seq<byte>, at: nat)
    requires Closed(out, p, src, at)
    ensures Open(out + [MAX_COPY - 1], p, 0, src, at)
  {
    assert src[at..at] == [];
    assert Stream(p) + [MAX_COPY - 1] + [] == Stream(p) + [MAX_COPY - 1];
  }

  /** A match that the source bears out extends a finished program. */
  lemma ClosedMatch(out: seq<byte>, p: Prog, src: seq<byte>, at: nat, len: nat, dist: nat)
    requires Closed(out, p, src, at) && at + len <= |src|
    requires 3 <= len && dist < MAX_FARDISTANCE && Matches(src, at, at + len, dist)
    ensures Closed(out + InsBytes(Match(len, dist)), Then(p, Match(len, dist)), src, at + len)
  {
    MatchReproduces(src, at, dist, len);
  }

  /** The output is that of the state: its instructions, and its open run. */
  ghost predicate Holds(out: seq<byte>, src: seq<byte>, st: State) {
    Open(out, st.p, st.copy, src, st.ip) && |out| == Length(st)
  }

  lemma OpenLength(out: seq<byte>, p: Prog, copy: nat, src: seq<byte>, at: nat)
    requires Open(out, p, copy, src, at)
    ensures |out| == StreamLength(p) + 1 + copy
  {
    StreamLengthIs(p);
  }

  lemma ClosedLength(out: seq<byte>, p: Prog, src: seq<byte>, at: nat)
    requires Closed(out, p, src, at)
    ensures |out| == StreamLength(p)
  {
    StreamLengthIs(p);
  }

  /** LITERAL: append a byte to the open run, which a full run closes. */
  method PutLiteral(input: array<byte>, at: nat, output: array<byte>, start: nat, limit: nat,
                    run: nat, ghost st: State, ghost src: seq<byte>)
    returns (ok: bool, op: nat, copy: nat, ghost t: State)
    requires input != output && limit <= output.Length
    requires src <= input[..] && at < |src| && run < MAX_COPY && st.ip == at && st.copy == run
    requires start <= output.Length && Holds(output[..start], src, st)
    modifies output
    ensures ok <==> Length(st) + 2 <= limit
    ensures ok ==> op <= limit && copy < MAX_COPY && t == Literal(src, st, st.table) && copy == t.copy && Holds(output[..op], src, t)
    ensures forall k :: limit <= k < output.Length ==> output[k] == old(output[k])
  {
    hide Closed, Legal, Stream, Expand;
    op, copy, t := start, run, st;
    if op + 2 > limit {
      return false, op, copy, t;
    }
    ghost var before := output[..op];
    output[op] := input[at];
    op, copy := op + 1, copy + 1;
    assert input[at] == src[at];
    assert output[..op] == before + [src[at]];
    OpenGrows(before, st.p, run, src, at);
    if copy == MAX_COPY {
      ghost var full := output[..op];
      OpenCloses(full, st.p, copy, src, at + 1);
      ghost var q := Then(st.p, Lit(src[at + 1 - copy..at + 1]));
      FullRunClosed(full, st.p, src, at + 1);
      ClosedOpens(full, q, src, at + 1);
      copy := 0;
      output[op] := MAX_COPY - 1;
      op := op + 1;
      assert output[..op] == full + [MAX_COPY - 1];
    }
    t := Literal(src, st, st.table);
    OpenLength(output[..op], t.p, t.copy, src, at + 1);
    ok := true;
  }

  /** The control byte written in advance is the one a full run needs. */
  lemma FullRunClosed(out: seq<byte>, p: Prog, src: seq<byte>, at: nat)
    requires Open(out, p, MAX_COPY, src, at)
    ensures MAX_COPY + 1 <= |out| && out[|out| - MAX_COPY - 1 := MAX_COPY - 1] == out
  {
    assert out[|Stream(p)|] == MAX_COPY - 1;
  }

  /** Close the open run: its length goes back into its control byte, or the
      control byte of an empty run is taken back. */
  method CloseRun(output: array<byte>, start: nat, copy: nat, ghost p: Prog, ghost src: seq<byte>,
                  ghost at: nat)
    returns (op: nat, ghost q: Prog)
    requires start <= output.Length && Open(output[..start], p, copy, src, at)
    modifies output
    ensures op == if copy > 0 then start else start - 1
    ensures Closed(output[..op], q, src, at)
    ensures q == if copy > 0 then Then(p, Lit(src[at - copy..at])) else p
    ensures forall k :: start <= k < output.Length ==> output[k] == old(output[k])
  {
    hide Closed, Legal, Stream, Expand;
    ghost var before := output[..start];
    if copy > 0 {
      OpenCloses(before, p, copy, src, at);
      output[start - copy - 1] := copy - 1;
      op, q := start, Then(p, Lit(src[at - copy..at]));
      assert output[..op] == before[start - copy - 1 := copy - 1];
    } else {
      EmptyRunCloses(before, p, src, at);
      op, q := start - 1, p;
      assert output[..op] == before[..start - 1];
    }
  }

  /** The length bytes of a long match. */
  method PutLength(output: array<byte>, start: nat, n: nat) returns (op: nat)
    requires start + n / 255 + 1 <= output.Length
    modifies output
    ensures op == start + |Ext(n)|
    ensures output[..op] == old(output[..start]) + Ext(n)
    ensures forall k :: op <= k < output.Length ==> output[k] == old(output[k])
  {
    var len: nat := n;
    op := start;
    while len >= 255
      invariant start <= op && len <= n && op + len / 255 == start + n / 255
      invariant op < output.Length
      invariant output[..op] + Ext(len) == old(output[..start]) + Ext(n)
      invariant forall k :: op <= k < output.Length ==> output[k] == old(output[k])
    {
      ghost var before := output[..op];
      output[op] := 255;
      op, len := op + 1, len - 255;
      assert output[..op] == before + [255];
      assert before + [255] + Ext(len) == before + ([255] + Ext(len));
    }
    ghost var before := output[..op];
    output[op] := len;
    op := op + 1;
    assert output[..op] == before + [len];
  }

  /** The distance bytes of a match, `distance` being biased. */
  method PutDistance(output: array<byte>, start: nat, distance: nat) returns (op: nat)
    requires distance + 1 < MAX_FARDISTANCE && start + 3 <= output.Length
    modifies output
    ensures op == start + |DistBytes(distance + 1)|
    ensures output[..op] == old(output[..start]) + DistBytes(distance + 1)
    ensures forall k :: op <= k < output.Length ==> output[k] == old(output[k])
  {
    if distance < MAX_DISTANCE {
      output[start] := distance % 256;
      op := start + 1;
    } else {
      var far := distance - MAX_DISTANCE;
      output[start], output[start + 1], output[start + 2] := 255, far / 256, far % 256;
      op := start + 3;
    }
  }

  /** The control byte of a match, both of its operands being biased. */
  method PutHead(output: array<byte>, start: nat, len: nat, distance: nat) returns (op: nat)
    requires 1 <= len && distance + 1 < MAX_FARDISTANCE && start < output.Length
    modifies output
    ensures op == start + 1
    ensures output[..op] == old(output[..start]) + [Head(len + 2, distance + 1)]
    ensures forall k :: op <= k < output.Length ==> output[k] == old(output[k])
  {
    var hi: nat := if len < 7 then len else 7;
    output[start] := hi * 32 + (if distance < MAX_DISTANCE then distance / 256 else 31);
    op := start + 1;
  }

  /** Write a match of `len` + 2 bytes at distance `distance` + 1, both biased. */
  method PutMatch(output: array<byte>, start: nat, len: nat, distance: nat) returns (op: nat)
    requires 1 <= len && distance + 1 < MAX_FARDISTANCE
    requires start + len / 255 + 5 <= output.Length
    modifies output
    ensures op <= start + len / 255 + 5
    ensures output[..op] == old(output[..start]) + InsBytes(Match(len + 2, distance + 1))
    ensures forall k :: op <= k < output.Length ==> output[k] == old(output[k])
  {
    ghost var before := output[..start];
    ghost var head := Head(len + 2, distance + 1);
    op := PutHead(output, start, len, distance);
    if len >= 7 {
      op := PutLength(output, op, len - 7);
    }
    assert output[..op] == before + [head] + LenBytes(len + 2);
    op := PutDistance(output, op, distance);
    Concat4(before, [head], LenBytes(len + 2), DistBytes(distance + 1));
  }

  lemma Concat4(a: seq<byte>, b: seq<byte>, c: seq<byte>, d: seq<byte>)
    ensures a + b + c + d == a + (b + (c + d))
  {
  }

  /** The eight bytes at `p` all equal `x`. */
  predicate AllEqual(s: seq<byte>, p: nat, x: byte)
    requires p + 8 <= |s|
  {
    forall k :: p <= k < p + 8 ==> s[k] == x
  }

  /** The eight bytes at `p` equal those at `q`. */
  predicate SameWord(s: seq<byte>, p: nat, q: nat)
    requires p + 8 <= |s| && q + 8 <= |s|
  {
    forall k :: q <= k < q + 8 ==> s[k] == s[k - q + p]
  }

  /** The bytes from `a` on all equal `x`. */
  ghost predicate Filled(s: seq<byte>, a: nat, b: nat, x: byte) {
    b <= |s| && forall k :: a <= k < b ==> s[k] == x
  }

  /** In a run a byte differs from the one before it when it differs from the byte of the run. */
  lemma RunDiffers(s: seq<byte>, a: nat, f: nat, end: nat, x: byte)
    requires 1 <= a <= f <= end <= |s| && s[a - 1] == x && Filled(s, a, f, x) && (f < end ==> s[f] != x)
    ensures FirstDiff(s, 1, a, end) == f
    decreases f - a
  {
    if a < f {
      RunDiffers(s, a + 1, f, end, x);
    }
  }

  /** Extend a run: `ip` ends one past the first byte that differs, or near the boundary. */
  method ExtendRun(input: array<byte>, length: nat, anchor: nat) returns (ip: nat)
    requires length <= input.Length && 1 <= anchor && anchor + TAIL < length
    requires IsRun(input[..length], anchor)
    ensures ip == MatchEnd(input[..length], anchor, 1, 3)
  {
    hide FirstDiff;
    ghost var src := input[..length];
    var bound := length - IP_BOUNDARY;
    ip := anchor + 3;
    var ref := ip - 1;
    var x := input[ip - 1];
    while ip < bound - (8 - IP_BOUNDARY)
      invariant anchor + 3 <= ip <= length && ref == ip - 1 && src[ip - 2] == x
      invariant EndFrom(src, 1, anchor + 3) == EndFrom(src, 1, ip)
    {
      if AllEqual(input[..], ref, x) {
        forall k | ip - 1 <= k < ip + 7
          ensures src[k] == x
        {
          assert input[..][k] == x;
        }
        RunDiffers(src, ip - 1, ip + 7, ip + 7, x);
        ip, ref := ip + 8, ref + 8;
      } else {
        ghost var word, f := ip, SomeDiffers(src, ip - 1, x);
        RunDiffers(src, ip - 1, f, ip + 7, x);
        while ip < bound
          invariant word <= ip <= bound && ref == ip - 1 && ip - 1 <= f
        {
          assert input[ref] == src[ref];
          if input[ref] != x {
            break;
          }
          ip, ref := ip + 1, ref + 1;
        }
        return;
      }
    }
    if ip > bound {
      ip := bound;
    }
  }

  /** The first of eight bytes, not all of which equal `x`, that does not. */
  ghost function SomeDiffers(s: seq<byte>, p: nat, x: byte): (f: nat)
    requires p + 8 <= |s| && !AllEqual(s, p, x)
    ensures p <= f < p + 8 && s[f] != x && Filled(s, p, f, x)
  {
    if s[p] != x then p else if s[p + 1] != x then p + 1 else if s[p + 2] != x then p + 2 else if s[p + 3] != x then p + 3
    else if s[p + 4] != x then p + 4 else if s[p + 5] != x then p + 5 else if s[p + 6] != x then p + 6 else p + 7
  }

  /** Extend a match of which `n` bytes are known at `anchor`. */
  method ExtendMatch(input: array<byte>, length: nat, anchor: nat, n: nat, dist: nat) returns (ip: nat)
    requires length <= input.Length && anchor + TAIL < length && 3 <= n <= 5 && 2 <= dist <= anchor
    ensures ip == MatchEnd(input[..length], anchor, dist, n)
  {
    hide FirstDiff;
    ghost var src := input[..length];
    var bound := length - IP_BOUNDARY;
    ip := anchor + n;
    var ref := ip - dist;
    while ip < bound - (8 - IP_BOUNDARY)
      invariant anchor + n <= ip <= length && ref == ip - dist
      invariant EndFrom(src, dist, anchor + n) == EndFrom(src, dist, ip)
    {
      ghost var f := FirstDiff(src, dist, ip, ip + 8);
      FirstDiffs(src, dist, ip, ip + 8);
      WordsSame(input[..], ref, ip, src, f);
      if SameWord(input[..], ref, ip) {
        ip, ref := ip + 8, ref + 8;
      } else {
        var same := true;
        while same && ip < bound
          invariant ip <= bound && ref == ip - dist
          invariant if same then ip <= f else ip == f + 1
          decreases bound - ip, same
        {
          same := input[ref] == input[ip];
          ip, ref := ip + 1, ref + 1;
        }
        return;
      }
    }
    if ip > bound {
      ip := bound;
    }
  }

  lemma WordsSame(all: seq<byte>, p: nat, q: nat, s: seq<byte>, f: nat)
    requires p <= q && q + 8 <= |s| && s <= all && q <= f <= q + 8
    requires forall k :: q <= k < f ==> s[k] == s[k - (q - p)]
    requires f < q + 8 ==> s[f] != s[f - (q - p)]
    ensures f == q + 8 <==> SameWord(all, p, q)
  {
    if f < q + 8 {
      assert all[f] != all[f - q + p];
    } else {
      forall k | q <= k < q + 8
        ensures all[k] == all[k - q + p]
      {
        assert s[k] == s[k - (q - p)];
      }
    }
  }

  /** The hash table holds positions before `at`, cut to 16 bits. */
  ghost predicate TableBelow(t: Table, at: nat) {
    forall k :: 0 <= k < |t| ==> t[k] < at
  }

  method PutHash(input: array<byte>, at: nat, htab: array<nat>, level: nat, ghost src: seq<byte>)
    requires 1 <= level <= 9 && at + 2 < |src| && src <= input[..] && htab.Length == Pow2(HashLog(level))
    requires TableBelow(htab[..], at)
    modifies htab
    ensures htab[..] == Enter(old(htab[..]), src, at, level) && TableBelow(htab[..], at + 1)
  {
    hide Hash, Pow2, HashLog;
    assert input[at] == src[at] && input[at + 1] == src[at + 1] && input[at + 2] == src[at + 2];
    htab[Hash(input[at], input[at + 1], input[at + 2], HashLog(level))] := at % 0x10000;
  }

  /** Why what the table points at is no match. */
  predicate Refused(s: seq<byte>, at: nat, ref: nat, level: nat)
    requires ref < at && at + TAIL < |s|
  {
    || at - ref >= MAX_FARDISTANCE
    || s[ref] != s[at] || s[ref + 1] != s[at + 1] || s[ref + 2] != s[at + 2]
    || (level >= 5 && at - ref >= MAX_DISTANCE && (s[ref + 3] != s[at + 3] || s[ref + 4] != s[at + 4]))
  }

  /** Nothing is found only where there is no run and the table points at no match. */
  lemma NothingFound(s: seq<byte>, level: nat, accel: nat, st: State)
    requires Sound(s, level, st) && st.ip + TAIL < |s| < 0x8000_0000 && accel < 0x8000_0000
    requires st.table[HashAt(s, st.ip, level)] < st.ip
    ensures Find(s, level, accel, st).dist == 0
       <==> !(s[st.ip - 1] == s[st.ip] == s[st.ip + 1] == s[st.ip + 2]) && Refused(s, st.ip, st.table[HashAt(s, st.ip, level)], level)
  {
    hide HashAt, NoCommonBit, Pow2, HashLog;
  }

  /** Look for a match at `anchor`: a run, or what the hash table points at once
      the bytes have been compared. Distance 0 means that there is none. */
  method FindMatch(input: array<byte>, length: nat, anchor: nat, htab: array<nat>, level: nat, accel: nat,
                   ghost st: State)
    returns (dist: nat, len: nat)
    requires length <= input.Length && length < 0x8000_0000 && accel < 0x8000_0000
    requires Sound(input[..length], level, st) && st.ip == anchor && anchor + TAIL < length
    requires htab[..] == st.table && TableBelow(htab[..], anchor)
    modifies htab
    ensures Finding(dist, len, htab[..]) == Find(input[..length], level, accel, st) && TableBelow(htab[..], anchor + 1)
    ensures var s, ref := input[..length], st.table[HashAt(input[..length], anchor, level)];
            ref < anchor && (dist == 0 <==> !(s[anchor - 1] == s[anchor] == s[anchor + 1] == s[anchor + 2]) && Refused(s, anchor, ref, level))
  {
    hide Hash, NoCommonBit, Pow2, HashLog;
    ghost var src := input[..length];
    assert st.table[HashAt(src, anchor, level)] < anchor;
    NothingFound(src, level, accel, st);
    len := 3;
    if input[anchor] == input[anchor - 1]
      && input[anchor - 1] == input[anchor + 1] && input[anchor] == input[anchor + 2] {
      dist := 1;
      return;
    }
    var hval := Hash(input[anchor], input[anchor + 1], input[anchor + 2], HashLog(level));
    var ref := htab[hval];
    assert st.table[hval] < anchor;
    dist := anchor - ref;
    if NoCommonBit(dist, accel) {
      htab[hval] := anchor % 0x10000;
    }
    if dist == 0 || dist >= MAX_FARDISTANCE || input[ref] != input[anchor]
      || input[ref + 1] != input[anchor + 1] || input[ref + 2] != input[anchor + 2] {
      dist := 0;
      return;
    }
    if level >= 5 && dist >= MAX_DISTANCE {
      if input[anchor + 3] != input[ref + 3] || input[anchor + 4] != input[ref + 4] {
        dist := 0;
        return;
      }
      len := len + 2;
    }
  }

  method Extend(input: array<byte>, length: nat, anchor: nat, len: nat, dist: nat) returns (ip: nat)
    requires length <= input.Length && 1 <= anchor && anchor + TAIL < length && 1 <= dist <= anchor
    requires (len == 3 || len == 5) && (dist == 1 ==> len == 3 && IsRun(input[..length], anchor))
    ensures ip == MatchEnd(input[..length], anchor, dist, len)
  {
    if dist == 1 {
      ip := ExtendRun(input, length, anchor);
    } else {
      ip := ExtendMatch(input, length, anchor, len, dist);
    }
  }

  /** A match at distance 1 is a run. */
  lemma FoundRun(s: seq<byte>, level: nat, accel: nat, st: State)
    requires Sound(s, level, st) && st.ip + TAIL < |s| < 0x8000_0000 && accel < 0x8000_0000
    ensures Find(s, level, accel, st).dist == 1 ==> IsRun(s, st.ip)
  {
    hide HashAt, NoCommonBit;
  }

  /** Write the match found: extend it, close the run of literals before it, and append it.
      `ip` is where it ends. */
  method WriteMatch(input: array<byte>, length: nat, anchor: nat, dist: nat, len: nat,
                    output: array<byte>, start: nat, limit: nat, copy: nat, ghost st: State, ghost src: seq<byte>)
    returns (ok: bool, ip: nat, op: nat, ghost q: Prog)
    requires input != output && length <= input.Length && src == input[..length]
    requires limit <= output.Length && 1 <= anchor == st.ip && copy == st.copy < MAX_COPY
    requires anchor + TAIL < length && (len == 3 || len == 5) && (dist == 1 ==> len == 3 && IsRun(src, anchor))
    requires 1 <= dist < MAX_FARDISTANCE && Matches(src, anchor, anchor + len, dist)
    requires start <= limit && Holds(output[..start], src, st)
    modifies output
    ensures st.copy <= st.ip && (ok <==> HasRoom(src, st, Finding(dist, len, st.table), limit))
    ensures ok ==> op < limit && Closed(output[..op], q, src, ip)
    ensures ok ==> anchor + 3 <= ip <= length - 3 && ip + 1 == MatchEnd(src, anchor, dist, len)
                   && q == Then(ClosedRun(src, st), Match(ip - anchor, dist))
    ensures forall k :: limit <= k < output.Length ==> output[k] == old(output[k])
  {
    hide *;
    HoldsMeans(output[..start], src, st);
    FoundEnds(src, anchor, dist, len);
    RoomForMatch(src, st, dist, len, limit);
    ip := Extend(input, length, anchor, len, dist);
    op, q := CloseRun(output, start, copy, st.p, src, anchor);
    ClosedLength(output[..op], q, src, anchor);
    ip := ip - 3;
    var biased := ip - anchor;
    if op + biased / 255 + 6 > limit {
      ok := false;
      return;
    }
    ghost var before := output[..op];
    op := PutMatch(output, op, biased, dist - 1);
    ClosedMatch(before, q, src, anchor, biased + 2, dist);
    q := Then(q, Match(biased + 2, dist));
    ip := ip + 2;
    ok := true;
  }

  /** How far what has been found goes. */
  lemma FoundEnds(src: seq<byte>, anchor: nat, dist: nat, len: nat)
    requires anchor + TAIL < |src| && (len == 3 || len == 5) && (dist == 1 ==> len == 3)
    requires Matches(src, anchor, anchor + len, dist)
    ensures 1 <= dist <= anchor
    ensures var e := MatchEnd(src, anchor, dist, len); anchor + 4 <= e <= |src| - 2 && Matches(src, anchor, e - 1, dist)
  {
    hide MatchEnd;
    MatchEnds(src, anchor, dist, len);
  }

  lemma RoomForMatch(s: seq<byte>, st: State, dist: nat, n: nat, limit: nat)
    requires st.copy <= st.ip && st.ip + TAIL < |s| && 1 <= dist <= st.ip && (n == 3 || n == 5)
    ensures ClosedRun(s, st) == if st.copy > 0 then Then(st.p, Lit(s[st.ip - st.copy..st.ip])) else st.p
    ensures HasRoom(s, st, Finding(dist, n, st.table), limit)
       <==> StreamLength(ClosedRun(s, st)) + (MatchEnd(s, st.ip, dist, n) - 3 - st.ip) / 255 + 6 <= limit
    ensures TAIL == 12 && IP_BOUNDARY == 2
  {
    hide MatchEnd, StreamLength;
  }

  lemma HoldsMeans(out: seq<byte>, src: seq<byte>, st: State)
    requires Holds(out, src, st)
    ensures Open(out, st.p, st.copy, src, st.ip) && st.copy <= st.ip <= |src| && |out| == Length(st)
  {
  }

  /** Encode a match: write it, enter its last two positions in the hash table, and
      open the next run. */
  method EncodeMatch(input: array<byte>, length: nat, anchor: nat, dist: nat, len: nat,
                     htab: array<nat>, level: nat, output: array<byte>, start: nat, limit: nat,
                     copy: nat, ghost st: State, ghost src: seq<byte>)
    returns (ok: bool, ip: nat, op: nat, ghost t: State)
    requires input != output && length <= input.Length && src == input[..length]
    requires limit <= output.Length && anchor == st.ip && copy == st.copy && Sound(src, level, st)
    requires anchor + TAIL < length && (len == 3 || len == 5) && (dist == 1 ==> len == 3 && IsRun(src, anchor))
    requires 1 <= dist < MAX_FARDISTANCE && Matches(src, anchor, anchor + len, dist)
    requires htab.Length == Pow2(HashLog(level)) && TableBelow(htab[..], anchor + 1)
    requires start <= limit && Holds(output[..start], src, st)
    modifies output, htab
    ensures st.copy <= st.ip && (ok <==> HasRoom(src, st, Finding(dist, len, st.table), limit))
    ensures ok ==>
              && anchor < ip == t.ip <= length && op <= limit && t.copy == 0
              && t == Matched(src, level, st, dist, len, old(htab[..])) && htab[..] == t.table
              && Holds(output[..op], src, t) && TableBelow(htab[..], ip)
    ensures forall k :: limit <= k < output.Length ==> output[k] == old(output[k])
  {
    hide Holds, Open, Closed, Pow2, HashLog, Enter, MatchEnd, HasRoom, Matches, IsRun, ClosedRun, HashAt;
    ghost var q;
    ok, ip, op, q := WriteMatch(input, length, anchor, dist, len, output, start, limit, copy, st, src);
    t := st;
    if !ok {
      return;
    }
    BelowMore(htab[..], anchor + 1, ip - 2);
    PutHash(input, ip - 2, htab, level, src);
    PutHash(input, ip - 1, htab, level, src);
    ghost var before := output[..op];
    output[op] := MAX_COPY - 1;
    op := op + 1;
    assert output[..op] == before + [MAX_COPY - 1];
    ClosedOpens(before, q, src, ip);
    t := State(ip, q, 0, htab[..]);
    OpenLength(output[..op], q, 0, src, ip);
    OpenHolds(output[..op], src, t);
  }

  lemma BelowMore(t: Table, a: nat, b: nat)
    requires TableBelow(t, a) && a <= b
    ensures TableBelow(t, b)
  {
  }

  lemma OpenHolds(out: seq<byte>, src: seq<byte>, st: State)
    requires Open(out, st.p, st.copy, src, st.ip) && |out| == Length(st)
    ensures Holds(out, src, st)
  {
  }

  /** The initial output: the first two bytes as an open run of literals. */
  lemma OpenInitially(src: seq<byte>)
    requires 2 <= |src|
    ensures Open([MAX_COPY - 1, src[0], src[1]], Start, 2, src, 2)
  {
    assert src[0..2] == [src[0], src[1]];
    assert [] + [MAX_COPY - 1] + [src[0], src[1]] == [MAX_COPY - 1, src[0], src[1]];
    assert src[..0] == [];
  }

  lemma BeginningHolds(src: seq<byte>, level: nat)
    requires 2 <= |src| && 1 <= level <= 9
    ensures Holds([MAX_COPY - 1, src[0], src[1]], src, Beginning(level)) && Sound(src, level, Beginning(level))
    ensures TableBelow(Beginning(level).table, 2)
  {
    OpenInitially(src);
  }

  /** The main loop, up to the last twelve bytes of the input. */
  method CompressBody(level: nat, input: array<byte>, length: nat, output: array<byte>, limit: nat,
                      accel: nat, ghost src: seq<byte>)
    returns (ok: bool, ip: nat, op: nat, copy: nat, ghost st: State)
    requires 1 <= level <= 9 && accel < 0x8000_0000
    requires input != output && length <= input.Length && src == input[..length]
    requires MIN_LIMIT <= limit <= output.Length && 4 <= length < 0x8000_0000
    modifies output
    ensures Sound(src, level, Beginning(level))
    ensures Walk(src, level, accel, limit, Beginning(level)) == if ok then Arrived(st) else NoRoom(st)
    ensures ok ==> ip == st.ip <= length && op <= limit && copy == st.copy < MAX_COPY && Holds(output[..op], src, st)
    ensures forall k :: limit <= k < output.Length ==> output[k] == old(output[k])
  {
    hide Holds, Pow2, HashLog, HasRoom, Find, Beginning, Walk, Turn;
    var htab := new nat[Pow2(HashLog(level))](_ => 0);
    output[0], output[1], output[2] := MAX_COPY - 1, input[0], input[1];
    ok, ip, op, copy, st := true, 2, 3, 2, Beginning(level);
    BeginningHolds(src, level);
    BeginningIs(level, htab[..]);
    assert output[..3] == [MAX_COPY - 1, src[0], src[1]];
    while ip + TAIL < length
      invariant 2 <= ip == st.ip <= length && op <= limit && copy == st.copy < MAX_COPY
      invariant Sound(src, level, st) && st.table == htab[..] && Holds(output[..op], src, st)
      invariant Walk(src, level, accel, limit, st) == Walk(src, level, accel, limit, Beginning(level))
      invariant TableBelow(htab[..], ip)
      invariant forall k :: limit <= k < output.Length ==> output[k] == old(output[k])
      decreases length - ip
    {
      ghost var t;
      WalkStep(src, level, accel, limit, st);
      ok, ip, op, copy, t := TakeTurn(input, length, ip, htab, level, accel, output, op, limit, copy, st, src);
      if !ok {
        return;
      }
      st := t;
    }
    WalkStep(src, level, accel, limit, st);
  }

  lemma WalkStep(s: seq<byte>, level: nat, accel: nat, limit: nat, st: State)
    requires Sound(s, level, st) && |s| < 0x8000_0000 && accel < 0x8000_0000
    ensures st.copy <= st.ip <= |s|
    ensures st.ip + TAIL >= |s| ==> Walk(s, level, accel, limit, st) == Arrived(st)
    ensures st.ip + TAIL < |s| ==>
              && Sound(s, level, Turn(s, level, accel, st)) && st.ip < Turn(s, level, accel, st).ip
              && Walk(s, level, accel, limit, st)
                 == if HasRoom(s, st, Find(s, level, accel, st), limit) then Walk(s, level, accel, limit, Turn(s, level, accel, st))
                    else NoRoom(st)
  {
    hide Find, Turn, HasRoom;
    if st.ip + TAIL < |s| {
      TurnGoesOn(s, level, accel, st);
    }
  }

  lemma TurnIs(s: seq<byte>, level: nat, accel: nat, st: State)
    requires Sound(s, level, st) && st.ip + TAIL < |s| < 0x8000_0000 && accel < 0x8000_0000
    ensures var f := Find(s, level, accel, st);
            Turn(s, level, accel, st) == if f.dist == 0 then Literal(s, st, f.table) else Matched(s, level, st, f.dist, f.n, f.table)
  {
    hide Find, Matched;
  }

  /** One turn of the main loop: a literal or a match, or no room for it. */
  method TakeTurn(input: array<byte>, length: nat, anchor: nat, htab: array<nat>, level: nat, accel: nat,
                  output: array<byte>, start: nat, limit: nat, run: nat, ghost st: State, ghost src: seq<byte>)
    returns (ok: bool, ip: nat, op: nat, copy: nat, ghost t: State)
    requires input != output && length <= input.Length && src == input[..length] && accel < 0x8000_0000
    requires limit <= output.Length && anchor == st.ip && anchor + TAIL < length < 0x8000_0000
    requires start <= limit && run == st.copy < MAX_COPY && Sound(src, level, st) && Holds(output[..start], src, st)
    requires htab[..] == st.table && TableBelow(htab[..], anchor)
    modifies output, htab
    ensures st.copy <= st.ip && (ok <==> HasRoom(src, st, Find(src, level, accel, st), limit))
    ensures ok ==>
              && t == Turn(src, level, accel, st) && htab[..] == t.table && TableBelow(htab[..], ip)
              && ip == t.ip <= length && op <= limit && copy == t.copy < MAX_COPY && Holds(output[..op], src, t)
    ensures forall k :: limit <= k < output.Length ==> output[k] == old(output[k])
  {
    hide Holds, Pow2, HashLog, HasRoom, Find, Literal, Matched, IsRun, Matches, Turn, StreamLength, ClosedRun;
    FoundRun(src, level, accel, st);
    FoundMatches(src, level, accel, st);
    TurnIs(src, level, accel, st);
    ghost var f := Find(src, level, accel, st);
    var dist, len := FindMatch(input, length, anchor, htab, level, accel, st);
    if dist == 0 {
      RoomForLiteral(src, st, f, limit);
      LiteralIs(src, st.(table := htab[..]));
      ok, op, copy, t := PutLiteral(input, anchor, output, start, limit, run, st.(table := htab[..]), src);
      ip := anchor + 1;
    } else {
      RoomIgnoresTable(src, st, f, limit);
      ok, ip, op, t := EncodeMatch(input, length, anchor, dist, len, htab, level, output, start, limit, run, st, src);
      copy := 0;
    }
  }

  lemma BeginningIs(level: nat, table: Table)
    requires 1 <= level <= 9 && |table| == Pow2(HashLog(level)) && forall k :: 0 <= k < |table| ==> table[k] == 0
    ensures Beginning(level) == State(2, Start, 2, table)
  {
  }

  lemma FoundMatches(s: seq<byte>, level: nat, accel: nat, st: State)
    requires Sound(s, level, st) && st.ip + TAIL < |s| < 0x8000_0000 && accel < 0x8000_0000
    ensures var f := Find(s, level, accel, st);
            f.dist > 0 ==> f.dist < MAX_FARDISTANCE && (f.n == 3 || f.n == 5) && (f.dist == 1 ==> f.n == 3)
                           && Matches(s, st.ip, st.ip + f.n, f.dist)
  {
    hide Find;
    FoundAgrees(s, level, accel, st);
  }

  lemma RoomForLiteral(s: seq<byte>, st: State, f: Finding, limit: nat)
    requires st.copy <= st.ip && st.ip + TAIL < |s| && f.dist == 0
    ensures HasRoom(s, st, f, limit) <==> Length(st) + 2 <= limit
    ensures Literal(s, st, f.table) == Literal(s, st.(table := f.table), f.table)
    ensures forall out: seq<byte> :: Holds(out, s, st) ==> Holds(out, s, st.(table := f.table))
  {
  }

  lemma RoomIgnoresTable(s: seq<byte>, st: State, f: Finding, limit: nat)
    requires st.copy <= st.ip && st.ip + TAIL < |s| && 1 <= f.dist <= st.ip && 3 <= f.n <= 5
    ensures HasRoom(s, st, f, limit) <==> HasRoom(s, st, Finding(f.dist, f.n, st.table), limit)
  {
    hide MatchEnd;
  }

  /** The left-over bytes, as literals; then the last run is closed. */
  method CompressTail(input: array<byte>, length: nat, output: array<byte>, limit: nat,
                      start: nat, at: nat, run: nat, ghost st: State, ghost src: seq<byte>)
    returns (ok: bool, op: nat, ghost end: State)
    requires input != output && length <= input.Length && src == input[..length]
    requires at == st.ip <= length && limit <= output.Length && start <= limit && run == st.copy < MAX_COPY && st.copy <= st.ip
    requires Holds(output[..start], src, st)
    modifies output
    ensures Rest(src, limit, st) == if ok then Arrived(end) else NoRoom(end)
    ensures end.copy <= end.ip <= |src| && (ok ==> op <= limit && Closed(output[..op], ClosedRun(src, end), src, length))
    ensures forall k :: limit <= k < output.Length ==> output[k] == old(output[k])
  {
    hide *;
    var ip: nat, copy: nat := at, run;
    op, end := start, st;
    while ip < length
      invariant ip == end.ip <= length && op <= limit && copy == end.copy < MAX_COPY && end.copy <= end.ip
      invariant Holds(output[..op], src, end) && Rest(src, limit, end) == Rest(src, limit, st)
      invariant forall k :: limit <= k < output.Length ==> output[k] == old(output[k])
    {
      ghost var t;
      LiteralIs(src, end);
      RestStep(src, limit, end);
      ok, op, copy, t := PutLiteral(input, ip, output, op, limit, copy, end, src);
      if !ok {
        return;
      }
      end, ip := t, ip + 1;
    }
    HoldsMeans(output[..op], src, end);
    RestStep(src, limit, end);
    ghost var q;
    op, q := CloseRun(output, op, copy, end.p, src, length);
    ok := true;
  }

  lemma RestStep(s: seq<byte>, limit: nat, st: State)
    requires st.copy <= st.ip <= |s| && st.copy < MAX_COPY
    ensures st.ip < |s| ==>
              Rest(s, limit, st) == if Length(st) + 2 <= limit then Rest(s, limit, Literal(s, st, st.table)) else NoRoom(st)
    ensures st.ip == |s| ==>
              && Rest(s, limit, st) == Arrived(st)
              && ClosedRun(s, st) == if st.copy > 0 then Then(st.p, Lit(s[st.ip - st.copy..st.ip])) else st.p
  {
    hide Literal, Length;
  }

  lemma LiteralIs(s: seq<byte>, st: State)
    requires st.ip < |s| && st.copy <= st.ip && st.copy < MAX_COPY
    ensures var t := Literal(s, st, st.table); t.ip == st.ip + 1 && t.copy <= t.ip && t.copy < MAX_COPY && t.table == st.table
  {
  }

  /** A finished stream, once marked, decodes to the source in any buffer that has
      room for it. */
  lemma ClosedDecodes(out: seq<byte>, p: Prog, src: seq<byte>, cap: nat)
    requires Closed(out, p, src, |src|) && 1 <= |src| <= cap
    ensures out != [] && out[0] < 32 && Decode(Mark(out), cap) == Done(src)
  {
    assert src[..|src|] == src;
    assert Expand(p) == src;
    StreamRoundTrip(p, cap);
  }

  /** blosclz_compress. `share` is the part of `length` that the level grants to the
      output. What is written is the stream of what is found, and the result is 0 exactly if
      that does not fit; a result above 0 is the length of a stream that decodes to the input
      in any buffer with room for it. No byte at or after the limit is written. */
  method Compress(level: nat, input: array<byte>, length: nat, output: array<byte>, maxout: int,
                  acceleration: int, share: int)
    returns (n: nat)
    requires 1 <= level <= 9 && acceleration < 0x8000_0000
    requires input != output && length <= input.Length && length < 0x8000_0000
    requires maxout <= output.Length
    modifies output
    ensures n > 0 ==> 66 <= share && n <= share && n <= maxout
    ensures n > 0 ==> forall cap: nat :: length <= cap ==>
              Decode(output[..n], cap) == Done(input[..length])
    ensures var found := Parse(input[..length], level, Accelerated(acceleration), if share > maxout then maxout else share);
            if found.GivesUp? then n == 0
            else n == StreamLength(found.p) > 0 && Legal(found.p) && IsMarked(output[..n], Stream(found.p))
    ensures forall k :: 0 <= k < output.Length && (maxout <= k || share <= k) ==> output[k] == old(output[k])
  {
    hide Closed, Decode, Holds, Rest, Walk, Beginning, ClosedRun, Legal, Stream, StreamLength, IsMarked;
    var maxlength := if share > maxout then maxout else share;
    if maxlength < 66 || length < 4 {
      return 0;
    }
    var accel := Accelerated(acceleration);
    ghost var src := input[..length];
    var ok: bool, ip: nat, op: nat, copy: nat;
    ghost var st: State, end: State;
    ok, ip, op, copy, st := CompressBody(level, input, length, output, maxlength, accel, src);
    if !ok {
      return 0;
    }
    ok, op, end := CompressTail(input, length, output, maxlength, op, ip, copy, st, src);
    if !ok {
      return 0;
    }
    ghost var out, q := output[..op], ClosedRun(src, end);
    ClosedDecodes(out, q, src, length);
    ClosedLength(out, q, src, length);
    output[0] := output[0] + 32;
    assert output[..op] == Mark(out);
    ClosedMarked(out, q, src);
    forall cap: nat | length <= cap ensures Decode(output[..op], cap) == Done(src) {
      ClosedDecodes(out, q, src, cap);
    }
    n := op;
  }

  /** An acceleration of `a` lets the table be updated when distances have no bit of `a` - 1. */
  function Accelerated(a: int): nat {
    (if a < 1 then 1 else a) - 1
  }

  ghost predicate IsMarked(out: seq<byte>, stream: seq<byte>) {
    stream != [] && stream[0] < 32 && out == Mark(stream)
  }

  lemma ClosedMarked(out: seq<byte>, p: Prog, src: seq<byte>)
    requires Closed(out, p, src, |src|) && out != [] && out[0] < 32
    ensures Legal(p) && IsMarked(Mark(out), Stream(p))
  {
    hide Stream, Expand, Legal;
  }

  /** Compression followed by decompression regenerates the input. */
  method RoundTrip(level: nat, input: array<byte>, length: nat, packed: array<byte>, maxout: nat,
                   acceleration: int, share: int, output: array<byte>)
    returns (n: nat, m: nat)
    requires 1 <= level <= 9 && acceleration < 0x8000_0000
    requires input != packed && packed != output && input != output
    requires length <= input.Length && length < 0x8000_0000 && length <= output.Length
    requires maxout + CPYSIZE - 1 <= packed.Length
    modifies packed, output
    ensures n > 0 ==> n <= maxout && m == length && output[..m] == input[..length]
    ensures forall k :: length <= k < output.Length ==> output[k] == old(output[k])
  {
    hide Decode;
    n := Compress(level, input, length, packed, maxout, acceleration, share);
    m := 0;
    if n > 0 {
      assert Decode(packed[..n], length) == Done(input[..length]);
      m := Decompress(packed, n, output, length);
    }
  }
}
