/** The decoder inverts the stream: whatever list of instructions was written,
    decoding regenerates what the list stands for. */
module BloscLzRoundTrip {
  import opened Bytes
  import opened LzCopy
  import opened BloscLzFormat
  import opened BloscLzDecoder

  /** `s` holds `b` at position `p`. */
  ghost predicate At(s: seq<byte>, p: nat, b: seq<byte>) {
    p + |b| <= |s| && s[p..p + |b|] == b
  }

  lemma AtParts(s: seq<byte>, p: nat, a: seq<byte>, b: seq<byte>)
    requires At(s, p, a + b)
    ensures At(s, p, a) && At(s, p + |a|, b)
  {
    var m := p + |a|;
    assert (a + b)[..|a|] == a && (a + b)[|a|..] == b;
    assert s[p..m] == s[p..m + |b|][..|a|];
    assert s[m..m + |b|] == s[p..m + |b|][|a|..];
  }

  lemma {:induction false} ReadExtInverts(s: seq<byte>, ip: nat, n: nat, len: nat)
    requires At(s, ip, Ext(n))
    ensures ReadExt(s, ip, len) == Operand(len + n, 0, ip + |Ext(n)|)
    decreases n
  {
    var e := Ext(n);
    assert s[ip] == s[ip..ip + |e|][0] == e[0];
    if n >= 255 {
      AtParts(s, ip, [255], Ext(n - 255));
      ReadExtInverts(s, ip + 1, n - 255, len + 255);
    }
  }

  /** The distance bytes read back. Near matches never look like far ones: their
      bias keeps them below 31 * 256 + 255. */
  lemma DistBytesRead(s: seq<byte>, p: nat, dist: nat)
    requires 1 <= dist < MAX_FARDISTANCE && At(s, p, DistBytes(dist))
    ensures dist <= MAX_DISTANCE ==>
              && p < |s| && (dist - 1) / 256 * 256 + s[p] == dist - 1
              && !((dist - 1) / 256 == 31 && s[p] == 255)
    ensures dist > MAX_DISTANCE ==>
              && p + 2 < |s| && s[p] == 255
              && s[p + 1] * 256 + s[p + 2] + MAX_DISTANCE == dist - 1
  {
    TailAt(s, p, DistBytes(dist));
    assert s[p] == DistBytes(dist)[0];
    if dist > MAX_DISTANCE {
      assert s[p + 1] == DistBytes(dist)[1] && s[p + 2] == DistBytes(dist)[2];
    }
  }

  lemma LenBytesRead(s: seq<byte>, ip: nat, len: nat)
    requires 3 <= len && At(s, ip, LenBytes(len))
    ensures len < 9 ==> |LenBytes(len)| == 0
    ensures len >= 9 ==> ReadExt(s, ip, 6) == Operand(len - 3, 0, ip + |LenBytes(len)|)
  {
    if len >= 9 {
      ReadExtInverts(s, ip, len - 9, 6);
    }
  }

  /** The bytes of a match after its control byte are its operands. */
  lemma ReadMatchInverts(s: seq<byte>, ip: nat, len: nat, dist: nat)
    requires 3 <= len && 1 <= dist < MAX_FARDISTANCE
    requires At(s, ip, LenBytes(len) + DistBytes(dist))
    ensures ReadMatch(s, ip, Head(len, dist))
            == Operand(len - 3, dist - 1, ip + |LenBytes(len)| + |DistBytes(dist)|)
  {
    hide At, LenBytes, DistBytes, Head, ReadExt;
    AtParts(s, ip, LenBytes(len), DistBytes(dist));
    LenBytesRead(s, ip, len);
    DistBytesRead(s, ip + |LenBytes(len)|, dist);
  }

  lemma TailAt(s: seq<byte>, p: nat, t: seq<byte>)
    requires At(s, p, t)
    ensures forall k :: 0 <= k < |t| ==> s[p + k] == t[k]
  {
    forall k | 0 <= k < |t| ensures s[p + k] == t[k] {
      assert s[p..p + |t|][k] == t[k];
    }
  }

  /** The decoder carries out the instruction whose bytes it reads. */
  lemma RunInverts(s: seq<byte>, p: nat, i: Ins, out: seq<byte>, cap: nat)
    requires LegalIns(i) && p < |s| && At(s, p + 1, Operands(i))
    requires i.Match? ==> 1 <= i.dist <= |out|
    requires |Apply(out, i)| <= cap
    ensures Run(s, p + 1, Ctrl(i), out, cap) == Continue(s, p + |InsBytes(i)|, Apply(out, i), cap)
  {
    hide ReadMatch, Continue, CopyMatch, Head, LenBytes, DistBytes;
    match i
    case Lit(b) =>
    case Match(len, dist) =>
      ReadMatchInverts(s, p + 1, len, dist);
  }

  /** The stream of a program starts with a control byte below 32. */
  lemma {:induction false} StreamHead(p: Prog)
    requires Legal(p) && p.Then?
    ensures Stream(p) != [] && Stream(p)[0] < 32
  {
    if p.init.Then? {
      StreamHead(p.init);
      assert Stream(p)[0] == Stream(p.init)[0];
    } else {
      assert Stream(p) == InsBytes(p.ins);
    }
  }

  /** `s` starts with the bytes of `t`, the marker of the first one aside. */
  ghost predicate Carries(s: seq<byte>, t: seq<byte>) {
    && 1 <= |t| <= |s| && s[0] % 32 == t[0]
    && forall k :: 1 <= k < |t| ==> s[k] == t[k]
  }

  lemma CarriesParts(s: seq<byte>, a: seq<byte>, b: seq<byte>)
    requires a != [] && Carries(s, a + b)
    ensures Carries(s, a) && At(s, |a|, b)
  {
    forall k | 0 <= k < |a| ensures a[k] == (a + b)[k] {
    }
    forall k | 0 <= k < |b| ensures s[|a|..|a| + |b|][k] == b[k] {
      assert (a + b)[|a| + k] == b[k];
    }
    assert s[|a|..|a| + |b|] == b;
  }

  lemma ContinueInverts(s: seq<byte>, p: nat, i: Ins, out: seq<byte>, cap: nat)
    requires LegalIns(i) && At(s, p, InsBytes(i))
    requires i.Match? ==> 1 <= i.dist <= |out|
    requires |Apply(out, i)| <= cap
    ensures Continue(s, p, out, cap) == Continue(s, p + |InsBytes(i)|, Apply(out, i), cap)
  {
    var b := InsBytes(i);
    AtParts(s, p, [b[0]], b[1..]);
    TailAt(s, p, b);
    RunInverts(s, p, i, out, cap);
  }

  lemma DecodeFirst(s: seq<byte>, i: Ins, cap: nat)
    requires LegalIns(i) && i.Lit? && |i.bytes| <= cap
    requires Carries(s, InsBytes(i))
    ensures Decode(s, cap) == Continue(s, |InsBytes(i)|, i.bytes, cap)
  {
    var b := InsBytes(i);
    assert s[1..|b|] == b[1..] == Operands(i);
    RunInverts(s, 0, i, [], cap);
    assert [] + i.bytes == i.bytes;
  }

  lemma SingleIns(p: Prog)
    requires Legal(p) && p.Then? && p.init.Start?
    ensures p.ins.Lit? && LegalIns(p.ins) && |p.ins.bytes| == Size(p)
    ensures Stream(p) == InsBytes(p.ins) && Expand(p) == p.ins.bytes
  {
  }

  lemma StreamStep(p: Prog)
    requires Legal(p) && p.Then?
    ensures Legal(p.init) && LegalIns(p.ins)
    ensures Stream(p) == Stream(p.init) + InsBytes(p.ins)
    ensures |Stream(p)| == |Stream(p.init)| + |InsBytes(p.ins)|
    ensures p.ins.Match? ==> 1 <= p.ins.dist <= |Expand(p.init)|
    ensures Expand(p) == Apply(Expand(p.init), p.ins) && Size(p.init) <= Size(p)
  {
  }

  /** The decoder gets through any program its input starts with: it arrives at the
      end of the program's bytes with what the program stands for. */
  lemma {:induction false} DecodeProgram(p: Prog, s: seq<byte>, cap: nat)
    requires Legal(p) && p.Then? && Size(p) <= cap && Carries(s, Stream(p))
    ensures Decode(s, cap) == Continue(s, |Stream(p)|, Expand(p), cap)
  {
    hide *;
    StreamStep(p);
    if p.init.Start? {
      SingleIns(p);
      DecodeFirst(s, p.ins, cap);
    } else {
      StreamHead(p.init);
      CarriesParts(s, Stream(p.init), InsBytes(p.ins));
      DecodeProgram(p.init, s, cap);
      ContinueInverts(s, |Stream(p.init)|, p.ins, Expand(p.init), cap);
    }
  }

  /** Decoding the marked stream of any legal program, with enough room, gives what
      the program stands for. */
  lemma StreamRoundTrip(p: Prog, cap: nat)
    requires Legal(p) && p.Then? && Size(p) <= cap
    ensures Stream(p) != [] && Stream(p)[0] < 32
    ensures Decode(Mark(Stream(p)), cap) == Done(Expand(p))
  {
    hide *;
    StreamHead(p);
    var t := Stream(p);
    MarkCarries(t);
    DecodeProgram(p, Mark(t), cap);
    ContinueAtEnd(Mark(t), Expand(p), cap);
  }

  lemma MarkCarries(t: seq<byte>)
    requires t != [] && t[0] < 32
    ensures |Mark(t)| == |t| && Carries(Mark(t), t)
  {
  }

  lemma ContinueAtEnd(s: seq<byte>, out: seq<byte>, cap: nat)
    ensures Continue(s, |s|, out, cap) == Done(out)
  {
  }
}
