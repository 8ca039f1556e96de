/** How many bytes LizardF_decompress asks for
    (c-blosc2/internal-complibs/lizard-1.0/lizard_frame.c:974-978). A reader that brings
    just as many must not run past the end of the frame. */
module LizardFrameHints {
  import opened Bytes
  import opened LittleEndian
  import opened LizardFrameSpec
  import opened LizardFrameEncoder
  import opened LizardFrameRuns

  /** The bytes `c` nowhere lead to where a frame can start. */
  ghost predicate Quiet(env: Env, st: St, c: seq<byte>) {
    forall k :: 0 < k <= |c| ==> Run(env, Res(st, []), c[..k]).st != START
  }

  /** `rest` is what is left of a frame: it leads to where a frame can start, at its end and
      not before. */
  ghost predicate Ends(env: Env, st: St, rest: seq<byte>) {
    rest != [] && Run(env, Res(st, []), rest).st == START && Quiet(env, st, rest[..|rest| - 1])
  }

  /** A header is at hand up to `got`, as the machine gathers it. */
  ghost predicate Sound(env: Env, st: St) {
    st.Collect? && st.what.Header? ==>
      || (st.target == MIN_FH_SIZE && |st.got| < MIN_FH_SIZE)
      || (st.target == MAX_FH_SIZE && MIN_FH_SIZE <= |st.got| < MAX_FH_SIZE && WantsMore(env, st.got[..MIN_FH_SIZE]))
  }

  /** What has been begun, or begins here, is a skippable frame. */
  predicate Skips(st: St, rest: seq<byte>) {
    st.Collect? && st.what.Header? && |st.got| + |rest| >= 4 && Skippable(st.got + rest)
  }

  /** It has less than three bytes of data, and so is shorter than the shortest frame header
      with the four bytes after it. */
  predicate ShortSkip(st: St, rest: seq<byte>) {
    Skips(st, rest) && |st.got| + |rest| >= 8 && ReadLE32((st.got + rest)[4..8]) < 3
  }

  // ----- Byte by byte -----

  lemma RunFirst(env: Env, st: St, c: seq<byte>)
    requires c != []
    ensures Run(env, Res(st, []), c).st == Run(env, Res(Step(env, Res(st, []), c[0]).st, []), c[1..]).st
  {
    hide Step;
    var one := Step(env, Res(st, []), c[0]);
    assert c == [c[0]] + c[1..] && [c[0]][..0] == [];
    RunConcat(env, Res(st, []), [c[0]], c[1..]);
    RunLast(env, Res(st, []), [c[0]]);
    RunNothing(env, Res(st, []));
    RunShift(env, one.st, one.out, c[1..]);
  }

  /** The last byte of a header. */
  lemma StepHeader(env: Env, st: St, b: byte)
    requires Sound(env, st) && st.Collect? && st.what.Header? && |st.got| + 1 == st.target
    ensures var s := Step(env, Res(st, []), b).st;
            && s != START && Sound(env, s) && Settle(env, s) == Res(s, [])
            && (s.Bad? || s.Linked? || Wanted(s) >= 4 || (|st.got| == 6 && Skippable(st.got + [b])))
            && (s.Collect? && s.what.Header? ==> s.got == st.got + [b])
  {
    hide ReadLE32, ReadLE64, BlockSize, HeaderChecksum, GoodFlags;
    var h := st.got + [b];
    HeaderSettles(env, h, SettleHeader(env, h));
    if |h| == MIN_FH_SIZE {
      assert h[..MIN_FH_SIZE] == h;
    } else {
      assert h[..MIN_FH_SIZE] == st.got[..MIN_FH_SIZE];
      ReadLE32Prefix(h, MIN_FH_SIZE);
      assert h[4] == h[..MIN_FH_SIZE][4];
    }
  }

  /** One byte more of something that is not yet complete. */
  lemma StepWaits(env: Env, st: St, b: byte)
    requires st.Collect? && |st.got| + 1 < st.target
    ensures Step(env, Res(st, []), b).st == st.(got := st.got + [b])
  {
  }

  /** A byte lowers what a state waits for by one, or by less. */
  lemma StepWants(env: Env, st: St, b: byte)
    requires Settle(env, st) == Res(st, []) && Sound(env, st)
    ensures var s := Step(env, Res(st, []), b).st;
            && Settle(env, s) == Res(s, []) && Sound(env, s)
            && (s == START ==> Wanted(st) <= 1)
            && (s == START || s.Bad? || s.Linked? || Wanted(st) <= Wanted(s) + 1
                || (st.Collect? && st.what.Header? && |st.got| == 6 && Skippable(st.got + [b])))
            && (s != START && s.Collect? && s.what.Header? ==>
                  st.Collect? && st.what.Header? && s.got == st.got + [b])
  {
    hide Skippable, SettleHeader, ReadLE32, Remaining;
    if st.Collect? && |st.got| + 1 < st.target {
      StepWaits(env, st, b);
      if st.what.Header? && st.target == MAX_FH_SIZE {
        assert (st.got + [b])[..MIN_FH_SIZE] == st.got[..MIN_FH_SIZE];
      }
    } else if st.Collect? && st.what.Header? {
      StepHeader(env, st, b);
    }
  }

  // ----- What is left of a frame -----

  lemma SkipsLater(st: St, s: St, rest: seq<byte>)
    requires rest != [] && st.Collect? && s.Collect? && s.got == st.got + [rest[0]]
    requires st.what.Header? && Skips(s, rest[1..])
    ensures Skips(st, rest)
  {
    assert st.got + rest == s.got + rest[1..];
  }

  lemma SkipsNow(st: St, rest: seq<byte>)
    requires rest != [] && st.Collect? && st.what.Header? && |st.got| == 6 && Skippable(st.got + [rest[0]])
    ensures Skips(st, rest)
  {
    hide ReadLE32;
    assert (st.got + rest)[..7] == st.got + [rest[0]];
    ReadLE32Prefix(st.got + rest, 7);
  }

  /** Whatever takes the machine back to where a frame can start has at least as many bytes
      as are wanted, unless the frame is skippable. */
  lemma {:induction false} AtLeastWanted(env: Env, st: St, rest: seq<byte>)
    requires Settle(env, st) == Res(st, []) && Sound(env, st)
    requires rest != [] && Run(env, Res(st, []), rest).st == START
    ensures Skips(st, rest) || Wanted(st) <= |rest|
    decreases |rest|
  {
    hide Run, Settle, Step, Skips, Skippable, Sound, Wanted;
    var s := Step(env, Res(st, []), rest[0]).st;
    RunFirst(env, st, rest);
    StepWants(env, st, rest[0]);
    if s != START {
      if s.Bad? || s.Linked? {
        DeadIsFinal(env, Res(s, []), rest[1..]);
      } else if st.Collect? && st.what.Header? && |st.got| == 6 && Skippable(st.got + [rest[0]]) {
        SkipsNow(st, rest);
      } else {
        if rest[1..] == [] {
          RunNothing(env, Res(s, []));
          assert false;
        }
        AtLeastWanted(env, s, rest[1..]);
        if Skips(s, rest[1..]) {
          SkipsMeans(s, rest[1..]);
          SkipsLater(st, s, rest);
        }
      }
    }
  }

  lemma SkipsMeans(st: St, rest: seq<byte>)
    requires Skips(st, rest)
    ensures st.Collect? && st.what.Header? && |st.got| + |rest| >= 4 && Skippable(st.got + rest)
  {
  }

  /** Where the bytes `c` of a skippable frame take the machine. */
  lemma SkipState(env: Env, got: seq<byte>, c: seq<byte>)
    requires |got| < MIN_FH_SIZE && |got + c| >= 4 && Skippable(got + c)
    ensures var y, s := got + c, Run(env, Res(Collect(Header, MIN_FH_SIZE, got), []), c).st;
            && (|y| < 8 ==> s != START)
            && (|y| >= 8 ==>
                  var end := 8 + ReadLE32(y[4..8]);
                  (|y| < end ==> s != START) && (|y| == end ==> s == START))
  {
    hide Run, Settle, Skippable, ReadLE32;
    var y, n := got + c, MIN_FH_SIZE - |got|;
    var st := Collect(Header, MIN_FH_SIZE, got);
    if |y| < MIN_FH_SIZE {
      RunCollects(env, Header, MIN_FH_SIZE, got, c);
      StillWaits(env, Collect(Header, MIN_FH_SIZE, y));
    } else {
      RunCollects(env, Header, MIN_FH_SIZE, got, c[..n]);
      assert got + c[..n] == y[..7] && c == c[..n] + c[n..];
      SkippableHeader(env, y);
      RunConcat(env, Res(st, []), c[..n], c[n..]);
      SkipSizeState(env, y, c[n..]);
    }
  }

  lemma StillWaits(env: Env, st: St)
    requires st.Collect? && |st.got| < st.target
    ensures Settle(env, st) == Res(st, [])
  {
  }

  lemma SkippableHeader(env: Env, y: seq<byte>)
    requires |y| >= MIN_FH_SIZE && Skippable(y)
    ensures Settle(env, Collect(Header, MIN_FH_SIZE, y[..7])) == Res(Collect(SkipSize, 4, y[4..7]), [])
  {
    hide ReadLE32;
    ReadLE32Prefix(y, 7);
    assert y[..7][4..7] == y[4..7];
  }

  lemma SkipSizeState(env: Env, y: seq<byte>, c: seq<byte>)
    requires |y| >= MIN_FH_SIZE && c == y[7..]
    ensures var s := Run(env, Res(Collect(SkipSize, 4, y[4..7]), []), c).st;
            && (|y| < 8 ==> s != START)
            && (|y| >= 8 ==>
                  var end := 8 + ReadLE32(y[4..8]);
                  (|y| < end ==> s != START) && (|y| == end ==> s == START))
  {
    hide Run, Settle, ReadLE32;
    var st := Collect(SkipSize, 4, y[4..7]);
    if c == [] {
      RunNothing(env, Res(st, []));
    } else {
      var size := ReadLE32(y[4..8]);
      RunCollects(env, SkipSize, 4, y[4..7], c[..1]);
      assert y[4..7] + c[..1] == y[4..8] && c == c[..1] + c[1..];
      SkipSizeSettles(env, y[4..8]);
      SkipLeft(env, size);
      RunConcat(env, Res(st, []), c[..1], c[1..]);
      if |c| <= 1 + size {
        if size > 0 {
          RunSkip(env, size, c[1..]);
          SkipLeft(env, size - |c[1..]|);
        } else {
          RunNothing(env, Res(START, []));
        }
      }
    }
  }

  /** A skippable frame is as long as it says. */
  lemma SkipLength(env: Env, st: St, rest: seq<byte>)
    requires Sound(env, st) && Ends(env, st, rest) && Skips(st, rest) && st.target == MIN_FH_SIZE
    ensures |st.got| + |rest| >= 8 && |st.got| + |rest| == 8 + ReadLE32((st.got + rest)[4..8])
  {
    hide Run, Skippable, ReadLE32;
    var got, y := st.got, st.got + rest;
    SkipState(env, got, rest);
    var end := 8 + ReadLE32(y[4..8]);
    if |y| > end {
      var k := end - |got|;
      var c := rest[..k];
      assert rest[..|rest| - 1][..k] == c && got + c == y[..end] && y[..end][4..8] == y[4..8];
      SkippablePrefix(y, end);
      SkipState(env, got, c);
      assert false;
    }
  }

  lemma SkippablePrefix(y: seq<byte>, n: nat)
    requires 4 <= n <= |y|
    ensures Skippable(y[..n]) == Skippable(y)
  {
    ReadLE32Prefix(y, n);
  }

  /** A header of fifteen bytes is not that of a skippable frame. */
  lemma LongIsNoSkip(env: Env, st: St, rest: seq<byte>)
    requires Sound(env, st) && Skips(st, rest)
    ensures st.target == MIN_FH_SIZE && |st.got| < MIN_FH_SIZE
  {
    hide ReadLE32;
    if st.target == MAX_FH_SIZE {
      assert (st.got + rest)[..MIN_FH_SIZE] == st.got[..MIN_FH_SIZE];
      ReadLE32Prefix(st.got + rest, MIN_FH_SIZE);
    }
  }

  /** What is asked for is there, in what is left of the frame, exactly unless the frame is
      skippable with less than three bytes of data and its header is not complete. */
  lemma WantedIsLeft(env: Env, st: St, rest: seq<byte>)
    requires Settle(env, st) == Res(st, []) && Sound(env, st) && Ends(env, st, rest)
    ensures Wanted(st) <= |rest| <==> !ShortSkip(st, rest)
  {
    hide Run, Settle, Skips, Quiet, Skippable;
    if Skips(st, rest) {
      SkipsMeans(st, rest);
      LongIsNoSkip(env, st, rest);
      SkipLength(env, st, rest);
    } else {
      AtLeastWanted(env, st, rest);
    }
  }

  // ----- In whole runs -----

  /** Whatever the machine has read since it started, it is in a sound state. */
  lemma {:induction false} RunIsSound(env: Env, a: seq<byte>)
    ensures var s := Run(env, Res(START, []), a).st; Sound(env, s) && Settle(env, s) == Res(s, [])
    decreases |a|
  {
    hide Settle, Sound, Step;
    if a == [] {
      StartIsSound(env);
    } else {
      var r := Run(env, Res(START, []), a[..|a| - 1]);
      RunIsSound(env, a[..|a| - 1]);
      StepWants(env, r.st, a[|a| - 1]);
      StepShift(env, r, a[|a| - 1]);
    }
  }

  lemma StartIsSound(env: Env)
    ensures Sound(env, START) && Settle(env, START) == Res(START, [])
  {
  }

  lemma StepShift(env: Env, r: Res, b: byte)
    ensures Step(env, r, b).st == Step(env, Res(r.st, []), b).st
  {
  }

  lemma SoundNow(env: Env, h: History)
    requires Genuine(env, h) && Settle(env, Now(h)) == Res(Now(h), [])
    ensures Run(env, Res(START, []), AllRead(h)).st == Now(h) && Sound(env, Now(h))
  {
    hide Run, Settle, Sound, Genuine, AllRead, AllWritten, Moves;
    HistoryMoves(env, h);
    StartIsSound(env);
    MovedTo(env, AllRead(h), AllWritten(h), Now(h), Waiting(h));
    RunIsSound(env, AllRead(h));
  }

  /** Where the machine stands after `a`. */
  lemma RunSplit(env: Env, st: St, a: seq<byte>, b: seq<byte>)
    ensures Run(env, Res(st, []), a + b).st == Run(env, Res(Run(env, Res(st, []), a).st, []), b).st
  {
    hide Run;
    var r := Run(env, Res(st, []), a);
    RunConcat(env, Res(st, []), a, b);
    RunShift(env, r.st, r.out, b);
  }

  /** What is left of a frame of which `a` has been read. */
  lemma EndsLater(env: Env, st: St, a: seq<byte>, rest: seq<byte>)
    requires Ends(env, st, a + rest) && rest != []
    ensures Ends(env, Run(env, Res(st, []), a).st, rest)
  {
    hide Run, Quiet;
    RunSplit(env, st, a, rest);
    var c := rest[..|rest| - 1];
    assert (a + rest)[..|a + rest| - 1] == a + c;
    QuietLater(env, st, a, c);
  }

  lemma QuietLater(env: Env, st: St, a: seq<byte>, c: seq<byte>)
    requires Quiet(env, st, a + c)
    ensures Quiet(env, Run(env, Res(st, []), a).st, c)
  {
    hide Run;
    var s, x := Run(env, Res(st, []), a).st, a + c;
    forall k | 0 < k <= |c|
      ensures Run(env, Res(s, []), c[..k]).st != START
    {
      assert x[..|a| + k] == a + c[..k];
      RunSplit(env, st, a, c[..k]);
    }
  }

  /** A header is what has been read of a frame. */
  lemma {:induction false} HeaderIsAll(env: Env, a: seq<byte>)
    requires Quiet(env, START, a)
    ensures var s := Run(env, Res(START, []), a).st; s.Collect? && s.what.Header? ==> s.got == a
    decreases |a|
  {
    hide Settle, Sound, Step;
    if a != [] {
      var init, b := a[..|a| - 1], a[|a| - 1];
      assert forall k :: 0 < k <= |init| ==> a[..k] == init[..k];
      assert a[..|a|] == a && init + [b] == a;
      HeaderIsAll(env, init);
      RunIsSound(env, init);
      var r := Run(env, Res(START, []), init);
      StepWants(env, r.st, b);
      StepShift(env, r, b);
    }
  }

  /** A skippable frame whose header, with the four bytes after it, the machine overrates. */
  predicate TooShort(y: seq<byte>) {
    |y| >= 8 && Skippable(y) && ReadLE32(y[4..8]) < 3
  }

  lemma FirstBytes(env: Env, a: seq<byte>)
    requires |a| < MIN_FH_SIZE
    ensures Run(env, Res(START, []), a).st == Collect(Header, MIN_FH_SIZE, a)
  {
    hide Run;
    RunCollects(env, Header, MIN_FH_SIZE, [], a);
    assert [] + a == a;
  }

  lemma QuietBeginning(env: Env, st: St, a: seq<byte>, rest: seq<byte>)
    requires Ends(env, st, a + rest) && rest != []
    ensures Quiet(env, st, a)
  {
    hide Run;
    var x := a + rest;
    var c := x[..|x| - 1];
    assert forall k :: 0 < k <= |a| ==> a[..k] == c[..k];
  }

  /** In the middle of a frame: what is asked for is there, unless the frame is too short. */
  lemma HintInFrame(env: Env, a: seq<byte>, rest: seq<byte>)
    requires Ends(env, START, a + rest) && rest != []
    ensures Wanted(Run(env, Res(START, []), a).st) <= |rest| <==> !(TooShort(a + rest) && |a| < MIN_FH_SIZE)
  {
    hide Run, Settle, Ends, Quiet, Sound, Wanted, Skippable, ReadLE32;
    var st := Run(env, Res(START, []), a).st;
    RunIsSound(env, a);
    EndsLater(env, START, a, rest);
    WantedIsLeft(env, st, rest);
    QuietBeginning(env, START, a, rest);
    HeaderIsAll(env, a);
    if |a| < MIN_FH_SIZE {
      FirstBytes(env, a);
    }
    if ShortSkip(st, rest) {
      LongIsNoSkip(env, st, rest);
    }
  }

  /** In a stream of frames, of which the one at `lo` ends at `hi`: what a call asks for
      stays within the frame, however the stream has been cut up so far, exactly unless
      this is a skippable frame of less than three bytes of data, and less than seven bytes
      of it have been read. */
  lemma HintStaysInFrame(env: Env, x: seq<byte>, lo: nat, hi: nat, h: History)
    requires Genuine(env, h) && Settle(env, Now(h)) == Res(Now(h), []) && AllRead(h) <= x
    requires lo <= |AllRead(h)| < hi <= |x|
    requires Run(env, Res(START, []), x[..lo]).st == START && Ends(env, START, x[lo..hi])
    ensures Wanted(Now(h)) <= hi - |AllRead(h)| <==> !(TooShort(x[lo..hi]) && |AllRead(h)| - lo < MIN_FH_SIZE)
  {
    hide Run, Settle, Ends, Genuine, AllRead, Wanted, TooShort;
    var pos := |AllRead(h)|;
    var a, rest := x[lo..pos], x[pos..hi];
    assert a + rest == x[lo..hi] && x[..lo] + a == x[..pos] == AllRead(h);
    SoundNow(env, h);
    RunSplit(env, START, x[..lo], a);
    HintInFrame(env, a, rest);
  }

  // ----- The frames that are written -----

  /** Nothing less than what is wanted leads to where a frame can start. */
  lemma LessIsQuiet(env: Env, st: St, c: seq<byte>)
    requires Settle(env, st) == Res(st, []) && !(st.Collect? && st.what.Header?) && |c| < Wanted(st)
    ensures Quiet(env, st, c)
  {
    hide Run, Settle, Wanted;
    forall k | 0 < k <= |c|
      ensures Run(env, Res(st, []), c[..k]).st != START
    {
      if Run(env, Res(st, []), c[..k]).st == START {
        AtLeastWanted(env, st, c[..k]);
      }
    }
  }

  lemma QuietThen(env: Env, st: St, a: seq<byte>, st1: St, b: seq<byte>)
    requires Quiet(env, st, a) && Run(env, Res(st, []), a).st == st1 && Quiet(env, st1, b)
    ensures Quiet(env, st, a + b)
  {
    hide Run;
    var c := a + b;
    forall k | 0 < k <= |c|
      ensures Run(env, Res(st, []), c[..k]).st != START
    {
      if k <= |a| {
        assert c[..k] == a[..k];
      } else {
        assert c[..k] == a + b[..k - |a|];
        RunSplit(env, st, a, b[..k - |a|]);
      }
    }
  }

  lemma QuietOne(env: Env, st: St, a: seq<byte>, b: byte)
    requires Quiet(env, st, a) && Run(env, Res(st, []), a + [b]).st != START
    ensures Quiet(env, st, a + [b])
  {
    hide Run;
    var c := a + [b];
    assert forall k :: 0 < k <= |a| ==> a[..k] == c[..k];
    assert c[..|c|] == c;
  }

  lemma MovesMeans(env: Env, from: St, c: seq<byte>, o: seq<byte>, st: St)
    requires Moves(env, from, [], c, o, st, []) && Settle(env, from) == Res(from, []) && Settle(env, st) == Res(st, [])
    ensures Run(env, Res(from, []), c).st == st
  {
    hide Run, Settle;
  }

  lemma NextBlockSettled(env: Env, f: Frame)
    ensures Settle(env, NextBlock(f)) == Res(NextBlock(f), []) && NextBlock(f) != START && Wanted(NextBlock(f)) == 4
  {
  }

  /** A header leads to a first block, and not to another frame. */
  lemma HeaderIsQuiet(env: Env, p: Prefs)
    requires GoodPrefs(p)
    ensures Quiet(env, START, HeaderBytes(env, p))
    ensures Run(env, Res(START, []), HeaderBytes(env, p)).st == NextBlock(Announced(p))
  {
    hide Run, Settle, HeaderBytes, Announced, Moves, SettleHeader;
    var h := HeaderBytes(env, p);
    HeaderDecodes(env, p);
    StartIsSound(env);
    NextBlockSettled(env, Announced(p));
    MovesMeans(env, START, h, [], NextBlock(Announced(p)));
    forall k | 0 < k <= |h|
      ensures Run(env, Res(START, []), h[..k]).st != START
    {
      if k < MIN_FH_SIZE {
        FirstBytes(env, h[..k]);
      } else if k == |h| {
        assert h[..k] == h;
      } else {
        HeaderSettlesTo(env, p);
        RunCollects(env, Header, MIN_FH_SIZE, [], h[..MIN_FH_SIZE]);
        assert [] + h[..MIN_FH_SIZE] == h[..MIN_FH_SIZE] && h[..k] == h[..MIN_FH_SIZE] + h[MIN_FH_SIZE..k];
        HeaderSettles(env, h[..MIN_FH_SIZE], Collect(Header, MAX_FH_SIZE, h[..MIN_FH_SIZE]));
        RunSplit(env, START, h[..MIN_FH_SIZE], h[MIN_FH_SIZE..k]);
        RunCollects(env, Header, MAX_FH_SIZE, h[..MIN_FH_SIZE], h[MIN_FH_SIZE..k]);
        StillWaits(env, Collect(Header, MAX_FH_SIZE, h[..MIN_FH_SIZE] + h[MIN_FH_SIZE..k]));
      }
    }
  }

  /** The four bytes before a block, or the end mark: what they lead to. */
  lemma HeadLeads(env: Env, f: Frame, head: seq<byte>)
    requires |head| == BH_SIZE
    ensures Run(env, Res(NextBlock(f), []), head).st == SettleBlockHead(f, head)
    ensures SettleBlockHead(f, head) != START ==> Quiet(env, NextBlock(f), head)
    ensures Settle(env, SettleBlockHead(f, head)) == Res(SettleBlockHead(f, head), [])
  {
    hide Run, Settle, SettleBlockHead, Wanted;
    RunCollects(env, BlockHead(f), BH_SIZE, [], head);
    assert [] + head == head && head[..3] + [head[3]] == head;
    BlockHeadSettles(env, f, head);
    NextBlockSettled(env, f);
    LessIsQuiet(env, NextBlock(f), head[..3]);
    if SettleBlockHead(f, head) != START {
      QuietOne(env, NextBlock(f), head[..3], head[3]);
    }
  }

  /** A block leads to the next one. */
  lemma BlockIsQuiet(env: Env, f: Frame, s: seq<byte>, c: seq<byte>)
    requires 1 <= |s| <= f.maxBlockSize && 6 <= f.maxBlockSize < UNCOMPRESSED_FLAG
    requires GoodBlock(env, s, c)
    ensures |c| < UNCOMPRESSED_FLAG && Quiet(env, NextBlock(f), BlockBytes(s, c))
    ensures Run(env, Res(NextBlock(f), []), BlockBytes(s, c)).st == NextBlock(f.(content := f.content + s))
  {
    hide Run, Settle, ReadLE32, WriteLE32, Moves, Quiet;
    BlockDecodes(env, f, s, c);
    NextBlockSettled(env, f);
    NextBlockSettled(env, f.(content := f.content + s));
    MovesMeans(env, NextBlock(f), BlockBytes(s, c), s, NextBlock(f.(content := f.content + s)));
    var n := if c == [] then |s| + UNCOMPRESSED_FLAG else |c|;
    var head, body := WriteLE32(n), if c == [] then s else c;
    LE32RoundTrip(n);
    HeadLeads(env, f, head);
    var st := SettleBlockHead(f, head);
    LessIsQuiet(env, st, body);
    QuietThen(env, NextBlock(f), head, st, body);
  }

  lemma {:induction false} BodyIsQuiet(env: Env, f: Frame, b: Blocks)
    requires Coded(env, b, f.maxBlockSize) && f.content == [] && 6 <= f.maxBlockSize <= 0x1000_0000
    ensures Coded(env, b, 0x1000_0000)
    ensures Quiet(env, NextBlock(f), BodyBytes(env, b))
    ensures Run(env, Res(NextBlock(f), []), BodyBytes(env, b)).st == NextBlock(f.(content := Content(b)))
  {
    hide Run, BlockBytes, GoodBlock, Quiet;
    if b.NoBlocks? {
      RunNothing(env, Res(NextBlock(f), []));
      QuietNothing(env, NextBlock(f));
    } else {
      BodyIsQuiet(env, f, b.init);
      var f1 := f.(content := Content(b.init));
      BlockIsQuiet(env, f1, b.s, b.c);
      QuietThen(env, NextBlock(f), BodyBytes(env, b.init), NextBlock(f1), BlockBytes(b.s, b.c));
      RunSplit(env, NextBlock(f), BodyBytes(env, b.init), BlockBytes(b.s, b.c));
    }
  }

  lemma QuietNothing(env: Env, st: St)
    ensures Quiet(env, st, [])
  {
  }

  /** The end of a frame leads to where a frame can start, and only its last byte does. */
  lemma EndEnds(env: Env, f: Frame)
    requires Remaining(f) == 0 && env.xxh(f.content) < 0x1_0000_0000
    ensures Ends(env, NextBlock(f), EndBytes(env, f.checksum, f.content))
  {
    hide Run, Settle, WriteLE32, Remaining, Moves, Quiet, Wanted;
    var e := EndBytes(env, f.checksum, f.content);
    EndDecodes(env, f);
    NextBlockSettled(env, f);
    StartIsSound(env);
    MovesMeans(env, NextBlock(f), e, [], START);
    EndMark();
    var head := WriteLE32(0);
    if f.checksum {
      HeadLeads(env, f, head);
      EndMarkMeans(env, f);
      var sum := WriteLE32(env.xxh(f.content));
      assert e[..|e| - 1] == head + sum[..3];
      BlockHeadSettles(env, f, head);
      SuffixWants(f);
      LessIsQuiet(env, Collect(Suffix(f), 4, []), sum[..3]);
      QuietThen(env, NextBlock(f), head, Collect(Suffix(f), 4, []), sum[..3]);
    } else {
      assert e[..|e| - 1] == head[..3];
      LessIsQuiet(env, NextBlock(f), head[..3]);
    }
  }

  lemma SuffixWants(f: Frame)
    ensures Wanted(Collect(Suffix(f), 4, [])) == 4
  {
  }

  lemma QuietThenEnds(env: Env, st: St, a: seq<byte>, st1: St, b: seq<byte>)
    requires Quiet(env, st, a) && Run(env, Res(st, []), a).st == st1 && Ends(env, st1, b)
    ensures Ends(env, st, a + b)
  {
    hide Run, Quiet;
    QuietThen(env, st, a, st1, b[..|b| - 1]);
    assert (a + b)[..|a + b| - 1] == a + b[..|b| - 1];
    RunSplit(env, st, a, b);
  }

  /** Every frame that is written is one frame: the machine is back where a frame can start
      at its end, and nowhere before. So no call returns 0 before the end. */
  lemma FrameEnds(env: Env, p: Prefs, b: Blocks)
    requires Sane(env) && GoodPrefs(p) && Coded(env, b, BlockSize(p.blockSizeID))
    requires p.contentSize == 0 || p.contentSize == |Content(b)|
    ensures Coded(env, b, 0x1000_0000)
    ensures Ends(env, START, FrameBytes(env, p, b))
  {
    hide Run, HeaderBytes, EndBytes, BodyBytes, Quiet, Ends;
    var f := Announced(p);
    var f2 := f.(content := Content(b));
    HeaderIsQuiet(env, p);
    BodyIsQuiet(env, f, b);
    EndEnds(env, f2);
    var h, m, e := HeaderBytes(env, p), BodyBytes(env, b), EndBytes(env, p.checksum, Content(b));
    QuietThen(env, START, h, NextBlock(f), m);
    RunSplit(env, START, h, m);
    QuietThenEnds(env, START, h + m, NextBlock(f2), e);
  }

  lemma FrameIsNoSkip(env: Env, p: Prefs, b: Blocks)
    requires Sane(env) && GoodPrefs(p) && Coded(env, b, 0x1000_0000)
    ensures !TooShort(FrameBytes(env, p, b))
  {
    hide WriteLE32, Descriptor, HeaderChecksum, BodyBytes, EndBytes, ReadLE32;
    var x := FrameBytes(env, p, b);
    LE32RoundTrip(MAGIC);
    assert x[..4] == WriteLE32(MAGIC);
    ReadLE32Prefix(x, 4);
  }

  /** However a frame has been cut up, the bytes a call asks for are all there; and only at
      the end of the frame does a call say that it is complete. */
  lemma HintNeverExceeds(env: Env, p: Prefs, b: Blocks, h: History)
    requires Sane(env) && GoodPrefs(p) && Coded(env, b, BlockSize(p.blockSizeID))
    requires p.contentSize == 0 || p.contentSize == |Content(b)|
    requires Genuine(env, h) && Coded(env, b, 0x1000_0000) && AllRead(h) < FrameBytes(env, p, b)
    requires Settle(env, Now(h)) == Res(Now(h), [])
    ensures Wanted(Now(h)) <= |FrameBytes(env, p, b)| - |AllRead(h)|
    ensures Now(h) == START ==> AllRead(h) == []
  {
    hide Run, Settle, FrameBytes, Coded, Genuine, AllRead, Ends, TooShort, Wanted;
    var x, a := FrameBytes(env, p, b), AllRead(h);
    var rest := x[|a|..];
    assert a + rest == x;
    FrameEnds(env, p, b);
    FrameIsNoSkip(env, p, b);
    SoundNow(env, h);
    HintInFrame(env, a, rest);
    QuietBeginning(env, START, a, rest);
    if a != [] {
      QuietMeans(env, START, a);
    }
  }

  lemma QuietMeans(env: Env, st: St, a: seq<byte>)
    requires Quiet(env, st, a) && a != []
    ensures Run(env, Res(st, []), a).st != START
  {
    assert a[..|a|] == a;
  }
}
