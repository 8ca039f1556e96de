/** The Lizard frame format as a machine that takes one byte at a time
    (c-blosc2/internal-complibs/lizard-1.0/lizard_frame.c, with the block codec and
    the 32-bit hash as parameters). Whatever the streaming decoder does with slices
    of its input is measured against this machine. */
module LizardFrameSpec {
  import opened Bytes
  import opened LittleEndian

  /** The calls the frame layer makes: `decode` is Lizard_decompress_safe on a block
      and a capacity, `xxh` is XXH32 of the bytes hashed so far. */
  datatype Env = Env(decode: (seq<byte>, nat) -> Outcome, xxh: seq<byte> -> nat)

  ghost predicate Sane(env: Env) {
    && (forall b: seq<byte>, cap: nat :: env.decode(b, cap).Done? ==> |env.decode(b, cap).bytes| <= cap)
    && (forall b: seq<byte> :: env.xxh(b) < 0x1_0000_0000)
  }

  const MAGIC: nat := 0x184D2206
  const MAGIC_SKIPPABLE: nat := 0x184D2A50
  const MIN_FH_SIZE: nat := 7
  const MAX_FH_SIZE: nat := 15
  const BH_SIZE: nat := 4
  const UNCOMPRESSED_FLAG: nat := 0x8000_0000

  /** LizardF_getBlockSize on the identifiers a header can hold. */
  function BlockSize(id: nat): (size: nat)
    requires 1 <= id <= 7
    ensures 0x2_0000 <= size <= 0x1000_0000
  {
    [0x2_0000, 0x4_0000, 0x10_0000, 0x40_0000, 0x100_0000, 0x400_0000, 0x1000_0000][id - 1]
  }

  function HeaderChecksum(env: Env, h: seq<byte>): byte {
    env.xxh(h) / 256 % 256
  }

  /** A frame being decoded: what its header says and the content so far. */
  datatype Frame = Frame(maxBlockSize: nat, checksum: bool, contentSize: nat, content: seq<byte>)

  datatype What = Header | SkipSize | BlockHead(f: Frame) | Block(f: Frame) | Suffix(f: Frame)

  /** The machine collects `target` bytes of something, passes on the rest of an
      uncompressed block, skips the rest of a skippable frame, has met an error, or
      has met a frame of linked blocks, which this model does not decode. */
  datatype St =
    | Collect(what: What, target: nat, got: seq<byte>)
    | Raw(f: Frame, left: nat)
    | Skip(left: nat)
    | Bad
    | Linked

  datatype Res = Res(st: St, out: seq<byte>)

  const START: St := Collect(Header, MIN_FH_SIZE, [])

  /** The flag byte announces the content size, which takes eight more bytes. */
  function HeaderSize(flg: byte): nat {
    if flg / 8 % 2 == 1 then MAX_FH_SIZE else MIN_FH_SIZE
  }

  predicate Skippable(h: seq<byte>)
    requires |h| >= 4
  {
    ReadLE32(h) / 16 * 16 == MAGIC_SKIPPABLE
  }

  /** Version, reserved bits and block size are as they must be. */
  predicate GoodFlags(flg: byte, bd: byte) {
    && flg / 64 == 1 && flg / 16 % 2 == 0 && flg % 4 == 0
    && bd / 128 == 0 && 1 <= bd / 16 % 8 && bd % 16 == 0
  }

  /** What a complete frame header says. */
  function SettleFrameHeader(env: Env, h: seq<byte>): St
    requires MIN_FH_SIZE <= |h|
    requires |h| == HeaderSize(h[4])
  {
    if !GoodFlags(h[4], h[5]) then Bad
    else if HeaderChecksum(env, h[4..|h| - 1]) != h[|h| - 1] then Bad
    else if h[4] / 32 % 2 == 0 then Linked
    else
      var contentSize := if |h| == MAX_FH_SIZE then ReadLE64(h[6..14]) else 0;
      NextBlock(Frame(BlockSize(h[5] / 16 % 8), h[4] / 4 % 2 == 1, contentSize, []))
  }

  /** What the seven or fifteen bytes of a header lead to. */
  function SettleHeader(env: Env, h: seq<byte>): St
    requires |h| == MIN_FH_SIZE || |h| == MAX_FH_SIZE
  {
    if Skippable(h) then Collect(SkipSize, 4, h[4..7])
    else if ReadLE32(h) != MAGIC then Bad
    else if |h| < HeaderSize(h[4]) then Collect(Header, MAX_FH_SIZE, h)
    else if |h| > HeaderSize(h[4]) then Bad
    else SettleFrameHeader(env, h)
  }

  /** The first seven bytes announce a header of fifteen. */
  predicate WantsMore(env: Env, h: seq<byte>)
    requires |h| == MIN_FH_SIZE
  {
    SettleHeader(env, h) == Collect(Header, MAX_FH_SIZE, h)
  }

  /** What a state waits for; and the four bytes that come next where, behind a header or
      a block, there must be four more. */
  function Wanted(st: St): int {
    match st
    case Collect(what, target, got) => target - |got| + if what.Header? || what.Block? then BH_SIZE else 0
    case Raw(_, left) => left + BH_SIZE
    case Skip(left) => left
    case _ => 0
  }

  function NextBlock(f: Frame): St {
    Collect(BlockHead(f), BH_SIZE, [])
  }

  /** The declared content size, where there is one, less what has been regenerated,
      in 64-bit arithmetic. */
  function Remaining(f: Frame): nat {
    if f.contentSize == 0 then 0 else (f.contentSize - |f.content|) % TWO64
  }

  lemma RemainingInitially(f: Frame)
    requires f.content == [] && f.contentSize < TWO64
    ensures Remaining(f) == f.contentSize
  {
  }

  lemma RemainingLess(f: Frame, c: seq<byte>)
    ensures Remaining(f.(content := f.content + c))
            == if f.contentSize == 0 then 0 else (Remaining(f) - |c|) % TWO64
  {
  }

  /** The four bytes before a block, or the end mark. */
  function SettleBlockHead(f: Frame, got: seq<byte>): St
    requires |got| == BH_SIZE
  {
    var size := ReadLE32(got) % UNCOMPRESSED_FLAG;
    if size == 0 then
      if Remaining(f) != 0 then Bad
      else if f.checksum then Collect(Suffix(f), 4, [])
      else START
    else if size > f.maxBlockSize then Bad
    else if ReadLE32(got) >= UNCOMPRESSED_FLAG then Raw(f, size)
    else Collect(Block(f), size, [])
  }

  /** What happens once everything a state waits for is there. A state that still
      waits is left as it is. */
  function Settle(env: Env, st: St): Res {
    match st
    case Collect(what, target, got) =>
      if |got| != target then Res(st, [])
      else (
        match what
        case Header =>
          Res(if |got| == MIN_FH_SIZE || |got| == MAX_FH_SIZE then SettleHeader(env, got) else Bad, [])
        case SkipSize =>
          if target != 4 then Res(Bad, [])
          else Res(if ReadLE32(got) == 0 then START else Skip(ReadLE32(got)), [])
        case BlockHead(f) => Res(if target == BH_SIZE then SettleBlockHead(f, got) else Bad, [])
        case Block(f) => (
          match env.decode(got, f.maxBlockSize)
          case Done(bytes) => Res(NextBlock(f.(content := f.content + bytes)), bytes)
          case _ => Res(Bad, [])
        )
        case Suffix(f) =>
          Res(if target == 4 && ReadLE32(got) == env.xxh(f.content) then START else Bad, [])
      )
    case Raw(f, left) => if left == 0 then Res(NextBlock(f), []) else Res(st, [])
    case Skip(left) => if left == 0 then Res(START, []) else Res(st, [])
    case Bad => Res(st, [])
    case Linked => Res(st, [])
  }

  /** Take one byte in. */
  function Push(st: St, b: byte): Res {
    match st
    case Collect(what, target, got) => Res(Collect(what, target, got + [b]), [])
    case Raw(f, left) =>
      if left == 0 then Res(st, []) else Res(Raw(f.(content := f.content + [b]), left - 1), [b])
    case Skip(left) => if left == 0 then Res(st, []) else Res(Skip(left - 1), [])
    case Bad => Res(st, [])
    case Linked => Res(st, [])
  }

  function Step(env: Env, r: Res, b: byte): Res {
    var p := Push(r.st, b);
    var s := Settle(env, p.st);
    Res(s.st, r.out + p.out + s.out)
  }

  /** Take any number of bytes in. */
  function Run(env: Env, r: Res, c: seq<byte>): Res {
    if c == [] then r else Step(env, Run(env, r, c[..|c| - 1]), c[|c| - 1])
  }

  lemma {:induction false} RunConcat(env: Env, r: Res, a: seq<byte>, b: seq<byte>)
    ensures Run(env, r, a + b) == Run(env, Run(env, r, a), b)
    decreases |b|
  {
    hide Step;
    if b == [] {
      assert a + b == a;
    } else {
      var n := |b| - 1;
      assert (a + b)[..|a| + n] == a + b[..n];
      assert (a + b)[|a| + n] == b[n];
      RunConcat(env, r, a, b[..n]);
    }
  }

  /** What was put out before does not matter to what comes. */
  lemma {:induction false} RunShift(env: Env, st: St, o: seq<byte>, c: seq<byte>)
    ensures Run(env, Res(st, o), c) == Res(Run(env, Res(st, []), c).st, o + Run(env, Res(st, []), c).out)
    decreases |c|
  {
    hide Settle, Push;
    if c != [] {
      var init, b := c[..|c| - 1], c[|c| - 1];
      RunShift(env, st, o, init);
      var x := Run(env, Res(st, []), init);
      var p := Push(x.st, b);
      ConcatAssoc4(o, x.out, p.out, Settle(env, p.st).out);
    } else {
      assert o + [] == o;
    }
  }

  lemma ConcatAssoc4(a: seq<byte>, b: seq<byte>, c: seq<byte>, d: seq<byte>)
    ensures (a + b) + c + d == a + (b + c + d)
  {
  }

  /** An error is final. */
  lemma {:induction false} DeadIsFinal(env: Env, r: Res, c: seq<byte>)
    requires r.st == Bad || r.st == Linked
    ensures Run(env, r, c).st == r.st
    decreases |c|
  {
    if c != [] {
      DeadIsFinal(env, r, c[..|c| - 1]);
    }
  }

  /** Bytes that a state still waits for add up. */
  lemma {:induction false} RunCollects(env: Env, what: What, target: nat, got: seq<byte>, c: seq<byte>)
    requires |got| < target && |got| + |c| <= target
    ensures Run(env, Res(Collect(what, target, got), []), c) == Settle(env, Collect(what, target, got + c))
    decreases |c|
  {
    hide SettleHeader, SettleBlockHead;
    if c == [] {
      assert got + c == got;
    } else {
      var n := |c| - 1;
      RunCollects(env, what, target, got, c[..n]);
      assert got + c[..n] + [c[n]] == got + c;
      var s := Settle(env, Collect(what, target, got + c));
      assert [] + [] + s.out == s.out;
    }
  }

  /** The bytes of an uncompressed block pass through. */
  lemma {:induction false} RunRaw(env: Env, f: Frame, left: nat, c: seq<byte>)
    requires 0 < left && |c| <= left
    ensures Run(env, Res(Raw(f, left), []), c)
            == Res(Settle(env, Raw(f.(content := f.content + c), left - |c|)).st, c)
    decreases |c|
  {
    hide Run, Settle;
    var n := |c| - 1;
    RawLeft(env, f.(content := f.content + c), left - |c|);
    if c == [] {
      assert f.content + c == f.content;
      RunNothing(env, Res(Raw(f, left), []));
    } else {
      RunRaw(env, f, left, c[..n]);
      RawLeft(env, f.(content := f.content + c[..n]), left - n);
      RunLast(env, Res(Raw(f, left), []), c);
      assert f.content + c[..n] + [c[n]] == f.content + c;
      RawStep(env, f.(content := f.content + c[..n]), left - n, c[..n], c[n]);
      assert c[..n] + [c[n]] == c;
    }
  }

  lemma RunNothing(env: Env, r: Res)
    ensures Run(env, r, []) == r
  {
  }

  lemma RunLast(env: Env, r: Res, c: seq<byte>)
    requires c != []
    ensures Run(env, r, c) == Step(env, Run(env, r, c[..|c| - 1]), c[|c| - 1])
  {
  }

  lemma RawLeft(env: Env, f: Frame, left: nat)
    ensures Settle(env, Raw(f, left)) == if left == 0 then Res(NextBlock(f), []) else Res(Raw(f, left), [])
  {
  }

  lemma RawStep(env: Env, f: Frame, left: nat, o: seq<byte>, b: byte)
    requires left > 0
    ensures Step(env, Res(Raw(f, left), o), b)
         == Res(Settle(env, Raw(f.(content := f.content + [b]), left - 1)).st, o + [b])
  {
    RawLeft(env, f.(content := f.content + [b]), left - 1);
    assert o + [b] + [] == o + [b];
  }

  lemma {:induction false} RunSkip(env: Env, left: nat, c: seq<byte>)
    requires 0 < left && |c| <= left
    ensures Run(env, Res(Skip(left), []), c) == Settle(env, Skip(left - |c|))
    decreases |c|
  {
    hide Run, Settle;
    SkipLeft(env, left);
    if c == [] {
      RunNothing(env, Res(Skip(left), []));
    } else {
      var n := |c| - 1;
      RunSkip(env, left, c[..n]);
      SkipLeft(env, left - n);
      RunLast(env, Res(Skip(left), []), c);
      SkipStep(env, left - n, c[n]);
    }
  }

  lemma SkipLeft(env: Env, left: nat)
    ensures Settle(env, Skip(left)) == Res(if left == 0 then START else Skip(left), [])
  {
  }

  lemma SkipStep(env: Env, left: nat, b: byte)
    requires left > 0
    ensures Step(env, Res(Skip(left), []), b) == Settle(env, Skip(left - 1))
  {
    SkipLeft(env, left - 1);
  }

  /** With `p` put out but not yet delivered, the bytes `c` take the machine from `st`
      to `st'`: the bytes `o` are delivered and `p'` is what then waits. Neither state
      need be settled. */
  ghost predicate Moves(env: Env, st: St, p: seq<byte>, c: seq<byte>, o: seq<byte>, st': St, p': seq<byte>) {
    var r := Run(env, Settle(env, st), c);
    var s := Settle(env, st');
    r.st == s.st && p + r.out == o + p' + s.out
  }

  lemma MovesNowhere(env: Env, st: St, p: seq<byte>)
    ensures Moves(env, st, p, [], [], st, p)
  {
    assert [] + p == p;
  }

  lemma MovesCompose(env: Env, st0: St, p0: seq<byte>, c1: seq<byte>, o1: seq<byte>, st1: St, p1: seq<byte>,
                     c2: seq<byte>, o2: seq<byte>, st2: St, p2: seq<byte>)
    requires Moves(env, st0, p0, c1, o1, st1, p1) && Moves(env, st1, p1, c2, o2, st2, p2)
    ensures Moves(env, st0, p0, c1 + c2, o1 + o2, st2, p2)
  {
    hide Settle, Run;
    var r, s1 := Settle(env, st0), Settle(env, st1);
    var a := Run(env, r, c1);
    RunConcat(env, r, c1, c2);
    RunShift(env, s1.st, a.out, c2);
    RunShift(env, s1.st, s1.out, c2);
    var x := Run(env, Res(s1.st, []), c2).out;
    calc {
      p0 + (a.out + x);
      (p0 + a.out) + x;
      (o1 + p1 + s1.out) + x;
      o1 + (p1 + (s1.out + x));
      o1 + (o2 + p2 + Settle(env, st2).out);
      (o1 + o2) + p2 + Settle(env, st2).out;
    }
  }

  /** Storing bytes that a state still waits for. */
  lemma CollectMoves(env: Env, what: What, target: nat, got: seq<byte>, p: seq<byte>, c: seq<byte>)
    requires |got| < target && |got| + |c| <= target
    ensures Moves(env, Collect(what, target, got), p, c, [], Collect(what, target, got + c), p)
  {
    var s := Settle(env, Collect(what, target, got));
    RunCollects(env, what, target, got, c);
    assert s == Res(Collect(what, target, got), []);
    assert [] + p == p;
  }

  lemma RawMoves(env: Env, f: Frame, left: nat, c: seq<byte>)
    requires 0 < left && |c| <= left
    ensures Moves(env, Raw(f, left), [], c, c, Raw(f.(content := f.content + c), left - |c|), [])
  {
    RunRaw(env, f, left, c);
    assert c + [] + [] == [] + c;
  }

  lemma SkipMoves(env: Env, left: nat, c: seq<byte>)
    requires |c| <= left
    ensures Moves(env, Skip(left), [], c, [], Skip(left - |c|), [])
  {
    if left > 0 {
      RunSkip(env, left, c);
    }
    var none: seq<byte> := [];
    assert none + none + none == none + none;
  }

  /** Moving on without reading: what settles alike is alike. */
  lemma SettleMoves(env: Env, st: St, p: seq<byte>, o: seq<byte>, st': St, p': seq<byte>)
    requires Settle(env, st).st == Settle(env, st').st
    requires p + Settle(env, st).out == o + p' + Settle(env, st').out
    ensures Moves(env, st, p, [], o, st', p')
  {
  }

  /** Without reading anything a machine that has settled stays where it is. */
  lemma StaysPut(env: Env, from: St, p: seq<byte>, o: seq<byte>, st: St, p': seq<byte>)
    requires Moves(env, from, p, [], o, st, p')
    requires Settle(env, from) == Res(from, []) && Settle(env, st) == Res(st, [])
    ensures st == from
  {
    hide Settle;
  }

  /** The whole of a header, read at once. */
  lemma HeaderMoves(env: Env, h: seq<byte>)
    requires |h| == MIN_FH_SIZE
             || (|h| == MAX_FH_SIZE && WantsMore(env, h[..MIN_FH_SIZE]))
    ensures Moves(env, START, [], h, [], Collect(Header, |h|, h), [])
  {
    hide SettleHeader;
    var n := MIN_FH_SIZE;
    CollectMoves(env, Header, n, [], [], h[..n]);
    assert [] + h[..n] == h[..n];
    if |h| == n {
      assert h[..n] == h;
    } else {
      SettleMoves(env, Collect(Header, n, h[..n]), [], [], Collect(Header, MAX_FH_SIZE, h[..n]), []);
      CollectMoves(env, Header, MAX_FH_SIZE, h[..n], [], h[n..]);
      assert h[..n] + h[n..] == h && h[..n] + [] == h[..n];
      MovesCompose(env, START, [], h[..n], [], Collect(Header, n, h[..n]), [],
                   [], [], Collect(Header, MAX_FH_SIZE, h[..n]), []);
      MovesCompose(env, START, [], h[..n], [], Collect(Header, MAX_FH_SIZE, h[..n]), [],
                   h[n..], [], Collect(Header, MAX_FH_SIZE, h), []);
    }
  }

  /** The state that some of the bytes lead to, when it is final, is the state all of
      them lead to. */
  lemma DiesEarly(env: Env, st: St, p: seq<byte>, c: seq<byte>, k: nat, o: seq<byte>, st': St, p': seq<byte>)
    requires k <= |c| && Moves(env, st, p, c[..k], o, st', p')
    requires Settle(env, st').st == Bad || Settle(env, st').st == Linked
    ensures Run(env, Settle(env, st), c).st == Settle(env, st').st
  {
    hide Settle;
    assert c == c[..k] + c[k..];
    RunConcat(env, Settle(env, st), c[..k], c[k..]);
    DeadIsFinal(env, Run(env, Settle(env, st), c[..k]), c[k..]);
  }

  /** Reading `c` into a state, and going on from what that state settles to. */
  lemma MovesOn(env: Env, st: St, p: seq<byte>, c: seq<byte>, mid: St, o: seq<byte>, st': St, p': seq<byte>)
    requires Moves(env, st, p, c, [], mid, p)
    requires Settle(env, mid).st == Settle(env, st').st
    requires p + Settle(env, mid).out == o + p' + Settle(env, st').out
    ensures Moves(env, st, p, c, o, st', p')
  {
    hide Settle, Run;
    assert [] + p == p;
  }

  /** What a complete header settles to, where it is put out, and that it is itself
      settled. */
  lemma HeaderSettles(env: Env, h: seq<byte>, st: St)
    requires |h| == MIN_FH_SIZE || |h| == MAX_FH_SIZE
    requires SettleHeader(env, h) == st
    ensures Settle(env, Collect(Header, |h|, h)) == Res(st, [])
    ensures Settle(env, st) == Res(st, []) && st != START
  {
    hide ReadLE64, BlockSize, HeaderChecksum, GoodFlags, ReadLE32;
  }

  /** The size of a skippable frame, when only its magic number has been read. */
  lemma SkipSizeMoves(env: Env, magic: seq<byte>, b: seq<byte>)
    requires |magic| == 4 && Skippable(magic) && |b| == 4
    ensures Moves(env, Collect(Header, MIN_FH_SIZE, magic), [], b, [], Collect(SkipSize, 4, b), [])
  {
    hide Run, Settle;
    var h := magic + b[..3];
    CollectMoves(env, Header, MIN_FH_SIZE, magic, [], b[..3]);
    assert h[..4] == magic && h[4..7] == b[..3];
    ReadLE32Prefix(h, 4);
    HeaderSettles(env, h, Collect(SkipSize, 4, b[..3]));
    MovesOn(env, Collect(Header, MIN_FH_SIZE, magic), [], b[..3], Collect(Header, MIN_FH_SIZE, h),
            [], Collect(SkipSize, 4, b[..3]), []);
    CollectMoves(env, SkipSize, 4, b[..3], [], b[3..]);
    assert b[..3] + b[3..] == b;
    MovesCompose(env, Collect(Header, MIN_FH_SIZE, magic), [], b[..3], [], Collect(SkipSize, 4, b[..3]), [],
                 b[3..], [], Collect(SkipSize, 4, b), []);
  }

  lemma SkipSizeSettles(env: Env, b: seq<byte>)
    requires |b| == 4
    ensures Settle(env, Collect(SkipSize, 4, b)) == Settle(env, Skip(ReadLE32(b)))
  {
  }

  lemma SkipSettles(env: Env)
    ensures Settle(env, Skip(0)) == Settle(env, START)
  {
  }

  /** The four bytes before a block: what they lead to is settled. */
  lemma BlockHeadSettles(env: Env, f: Frame, b: seq<byte>)
    requires |b| == BH_SIZE
    ensures Settle(env, Collect(BlockHead(f), BH_SIZE, b)) == Res(SettleBlockHead(f, b), [])
    ensures Settle(env, SettleBlockHead(f, b)) == Res(SettleBlockHead(f, b), [])
  {
  }

  lemma EndMarkSettles(f: Frame, b: seq<byte>)
    requires |b| == BH_SIZE && ReadLE32(b) % UNCOMPRESSED_FLAG == 0
    ensures SettleBlockHead(f, b) == SettleBlockHead(f, [0, 0, 0, 0])
  {
  }

  lemma RawSettles(env: Env, f: Frame)
    ensures Settle(env, Raw(f, 0)) == Settle(env, NextBlock(f))
  {
  }

  /** A block decodes, or it does not. */
  lemma BlockSettles(env: Env, f: Frame, b: seq<byte>)
    ensures match env.decode(b, f.maxBlockSize)
            case Done(o) =>
              && Settle(env, Collect(Block(f), |b|, b)) == Res(NextBlock(f.(content := f.content + o)), o)
              && Settle(env, NextBlock(f.(content := f.content + o)))
                 == Res(NextBlock(f.(content := f.content + o)), [])
            case _ => Settle(env, Collect(Block(f), |b|, b)) == Res(Bad, [])
  {
  }

  lemma SuffixSettles(env: Env, f: Frame, b: seq<byte>)
    requires |b| == 4
    ensures Settle(env, Collect(Suffix(f), 4, b))
            == Res(if ReadLE32(b) == env.xxh(f.content) then START else Bad, [])
    ensures Settle(env, START) == Res(START, [])
  {
  }

  /** The end mark, and what it leads to. */
  lemma EndMarkMeans(env: Env, f: Frame)
    ensures Settle(env, Collect(BlockHead(f), BH_SIZE, [0, 0, 0, 0]))
            == Res(if Remaining(f) != 0 then Bad else if f.checksum then Collect(Suffix(f), 4, []) else START, [])
    ensures Settle(env, Collect(Suffix(f), 4, [])) == Res(Collect(Suffix(f), 4, []), [])
    ensures Settle(env, START) == Res(START, [])
  {
  }

  /** What the rest of the bytes lead to, all of them lead to. */
  lemma MovesThenRuns(env: Env, st: St, p: seq<byte>, c: seq<byte>, k: nat, o: seq<byte>, st': St, p': seq<byte>)
    requires k <= |c| && Moves(env, st, p, c[..k], o, st', p')
    ensures Run(env, Settle(env, st), c).st == Run(env, Settle(env, st'), c[k..]).st
  {
    hide Settle;
    assert c == c[..k] + c[k..];
    var a, s := Run(env, Settle(env, st), c[..k]), Settle(env, st');
    RunConcat(env, Settle(env, st), c[..k], c[k..]);
    RunShift(env, a.st, a.out, c[k..]);
    RunShift(env, s.st, s.out, c[k..]);
  }
}
