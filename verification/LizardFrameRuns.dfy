/** Whole runs of LizardF_decompress
    (c-blosc2/internal-complibs/lizard-1.0/lizard_frame.c:980-1362): what any number of
    calls, with the stream cut anywhere and any room for the output, do with a frame. */
module LizardFrameRuns {
  import opened Bytes
  import opened LittleEndian
  import opened LizardFrameSpec
  import opened LizardFrameEncoder
  import opened LizardFrameDecoder

  /** The calls made on a context, latest first: the bytes each read and delivered, and
      the state and the undelivered bytes it left behind. */
  datatype History =
    | Fresh
    | Call(before: History, read: seq<byte>, wrote: seq<byte>, st: St, waiting: seq<byte>)

  function Now(h: History): St {
    if h.Fresh? then START else h.st
  }

  function Waiting(h: History): seq<byte> {
    if h.Fresh? then [] else h.waiting
  }

  ghost function AllRead(h: History): seq<byte> {
    if h.Fresh? then [] else AllRead(h.before) + h.read
  }

  ghost function AllWritten(h: History): seq<byte> {
    if h.Fresh? then [] else AllWritten(h.before) + h.wrote
  }

  /** Each call did what the contract of LizardF_decompress says of a call that does not
      fail. */
  ghost predicate Genuine(env: Env, h: History) {
    h.Call? ==>
      && Genuine(env, h.before)
      && Moves(env, Now(h.before), Waiting(h.before), h.read, h.wrote, h.st, h.waiting)
  }

  /** `x` is the bytes of whole frames and `content` what they hold. */
  ghost predicate Holds(env: Env, x: seq<byte>, content: seq<byte>) {
    Moves(env, START, [], x, content, START, [])
  }

  lemma {:induction false} HistoryMoves(env: Env, h: History)
    requires Genuine(env, h)
    ensures Moves(env, START, [], AllRead(h), AllWritten(h), Now(h), Waiting(h))
  {
    hide Moves;
    if h.Fresh? {
      MovesNowhere(env, START, []);
    } else {
      HistoryMoves(env, h.before);
      MovesCompose(env, START, [], AllRead(h.before), AllWritten(h.before), Now(h.before), Waiting(h.before),
                   h.read, h.wrote, h.st, h.waiting);
    }
  }

  /** What is put out for some of the bytes begins what is put out for all of them. */
  lemma OutputGrows(env: Env, r: Res, a: seq<byte>, b: seq<byte>)
    ensures Run(env, r, a).out <= Run(env, r, a + b).out
  {
    hide Run;
    var m := Run(env, r, a);
    RunConcat(env, r, a, b);
    RunShift(env, m.st, m.out, b);
  }

  lemma HoldsMeans(env: Env, x: seq<byte>, content: seq<byte>)
    requires Holds(env, x, content)
    ensures Settle(env, START) == Res(START, []) && Run(env, Res(START, []), x) == Res(START, content)
  {
    hide Run;
    var r := Run(env, Res(START, []), x);
    assert [] + r.out == r.out && content + [] + [] == content;
  }

  /** However a stream of frames is cut up, what has been delivered is always the
      beginning of the content. */
  lemma DeliveredIsPrefix(env: Env, x: seq<byte>, content: seq<byte>, h: History)
    requires Holds(env, x, content) && Genuine(env, h) && AllRead(h) <= x
    ensures AllWritten(h) <= content
  {
    hide Run, Settle;
    HistoryMoves(env, h);
    HoldsMeans(env, x, content);
    var a := AllRead(h);
    OutputGrows(env, Res(START, []), a, x[|a|..]);
    assert a + x[|a|..] == x;
    var out := Run(env, Res(START, []), a).out;
    assert [] + out == out;
  }

  /** When every byte has been read, the state is where a new frame can start, the last
      call says so by returning 0, and what was delivered and what waits is the content. */
  lemma AllReadIsAllDecoded(env: Env, x: seq<byte>, content: seq<byte>, h: History)
    requires Holds(env, x, content) && Genuine(env, h) && AllRead(h) == x
    requires Settle(env, Now(h)) == Res(Now(h), [])
    ensures Now(h) == START && AllWritten(h) + Waiting(h) == content
  {
    hide Run, Settle;
    HistoryMoves(env, h);
    HoldsMeans(env, x, content);
    var s := AllWritten(h) + Waiting(h);
    assert s + [] == s && [] + content == content;
  }

  lemma MovedTo(env: Env, a: seq<byte>, o: seq<byte>, st: St, p: seq<byte>)
    requires Moves(env, START, [], a, o, st, p) && Settle(env, START) == Res(START, [])
    ensures Run(env, Res(START, []), a).st == Settle(env, st).st
  {
    hide Run, Settle;
  }

  /** No call on a stream of frames can fail. */
  lemma NoCallFails(env: Env, x: seq<byte>, content: seq<byte>, h: History, c: seq<byte>)
    requires Holds(env, x, content) && Genuine(env, h) && AllRead(h) + c <= x
    ensures var st := Run(env, Settle(env, Now(h)), c).st; st != Bad && st != Linked
  {
    hide Run, Settle, Genuine, Holds, Moves;
    HistoryMoves(env, h);
    HoldsMeans(env, x, content);
    var a := AllRead(h);
    MovedTo(env, a, AllWritten(h), Now(h), Waiting(h));
    var rest := x[|a| + |c|..];
    assert a + c + rest == x;
    var r, s := Run(env, Res(START, []), a), Settle(env, Now(h));
    RunConcat(env, Res(START, []), a, c);
    RunShift(env, r.st, r.out, c);
    RunShift(env, r.st, s.out, c);
    RunConcat(env, Res(START, []), a + c, rest);
    var d := Run(env, Res(START, []), a + c);
    if d.st == Bad || d.st == Linked {
      DeadIsFinal(env, d, rest);
    }
  }

  /** Frames can follow each other in a stream. */
  lemma FramesFollow(env: Env, x: seq<byte>, c: seq<byte>, y: seq<byte>, d: seq<byte>)
    requires Holds(env, x, c) && Holds(env, y, d)
    ensures Holds(env, x + y, c + d)
  {
    hide Moves;
    MovesCompose(env, START, [], x, c, START, [], y, d, START, []);
  }

  /** The round trip: a frame made of any blocks, read in any slices with any room for
      the output, gives its source back, byte for byte and in order. */
  lemma FrameStreams(env: Env, p: Prefs, b: Blocks, h: History)
    requires Sane(env) && GoodPrefs(p) && Coded(env, b, BlockSize(p.blockSizeID))
    requires p.contentSize == 0 || p.contentSize == |Content(b)|
    requires Genuine(env, h) && Coded(env, b, 0x1000_0000) && AllRead(h) <= FrameBytes(env, p, b)
    ensures AllWritten(h) <= Content(b)
    ensures AllRead(h) == FrameBytes(env, p, b) && Settle(env, Now(h)) == Res(Now(h), []) ==>
              Now(h) == START && AllWritten(h) + Waiting(h) == Content(b)
  {
    hide FrameBytes, Moves, Coded;
    FrameDecodes(env, p, b);
    var x := FrameBytes(env, p, b);
    DeliveredIsPrefix(env, x, Content(b), h);
    if AllRead(h) == x && Settle(env, Now(h)) == Res(Now(h), []) {
      AllReadIsAllDecoded(env, x, Content(b), h);
    }
  }

  // ----- A reader -----

  /** The calls made so far are those of the history, and each went on where the one before
      had stopped. */
  ghost predicate Reading(c: DCtx, h: History, x: seq<byte>, pos: nat, out: seq<byte>)
    reads c
  {
    && c.Valid() && Genuine(c.env, h) && c.st == Now(h) && c.waiting == Waiting(h)
    && (c.srcExpect == None || c.srcExpect == Some(pos))
    && Settle(c.env, c.st) == Res(c.st, [])
    && pos <= |x| && AllRead(h) == x[..pos] && AllWritten(h) == out
  }

  /** One call: on some of the bytes that are left, at least one, with room for one byte or
      more. It does not fail, and it makes progress. */
  method ReadSome(c: DCtx, x: seq<byte>, pos: nat, n: nat, room: nat, ghost content: seq<byte>, ghost h: History)
    returns (hint: nat, read: nat, wrote: seq<byte>, ghost h': History)
    requires Holds(c.env, x, content) && Reading(c, h, x, pos, AllWritten(h)) && 0 < n && pos + n <= |x| && 0 < room
    modifies c
    ensures Reading(c, h', x, pos + read, AllWritten(h) + wrote)
    ensures read > 0 || |wrote| > 0
    ensures hint == if read > 0 && c.st == START then 0 else Wanted(c.st)
    ensures pos + read == |x| ==> hint == 0 && c.st == START && c.waiting == [] && AllWritten(h') == content
  {
    hide Run, Settle, Moves, Holds, Genuine, AllRead, AllWritten, Wanted;
    var slice := x[pos..pos + n];
    var dst := new byte[room];
    assert x[..pos] + slice == x[..pos + n];
    NoCallFails(c.env, x, content, h, slice);
    MovesNowhere(c.env, c.st, c.waiting);
    ghost var from, w := c.st, c.waiting;
    var r, m, k := c.Decompress(slice, pos, dst, 0, room);
    wrote, read := dst[0..k], m;
    hint := r.size;
    h' := Call(h, slice[..read], wrote, c.st, c.waiting);
    CallMeans(c.env, h');
    assert x[..pos] + slice[..read] == x[..pos + read];
    if read == 0 {
      assert slice[..0] == [];
      StaysPut(c.env, from, w, wrote, c.st, c.waiting);
    }
    if pos + read == |x| {
      assert x[..pos + read] == x;
      AllReadIsAllDecoded(c.env, x, content, h');
    }
  }

  lemma CallMeans(env: Env, h: History)
    requires h.Call? && Genuine(env, h.before) && Moves(env, Now(h.before), Waiting(h.before), h.read, h.wrote, h.st, h.waiting)
    ensures Genuine(env, h) && AllRead(h) == AllRead(h.before) + h.read && AllWritten(h) == AllWritten(h.before) + h.wrote
  {
    hide Moves;
  }

  /** A stream of frames, read to its end in slices of any sizes with room of any sizes: the
      content comes out, and the last call returns 0. */
  method ReadAll(c: DCtx, x: seq<byte>, slices: nat -> nat, rooms: nat -> nat, ghost content: seq<byte>)
    returns (out: seq<byte>, hint: nat)
    requires c.Valid() && c.st == START && c.waiting == [] && c.srcExpect == None && Holds(c.env, x, content)
    modifies c
    ensures out == content && hint == 0
    ensures c.Valid() && c.st == START && c.waiting == []
  {
    hide *;
    ghost var h := Fresh;
    HoldsNothing(c.env, x, content);
    Untouched(c, x);
    out, hint := [], 0;
    var pos: nat, i: nat := 0, 0;
    while pos < |x|
      invariant Reading(c, h, x, pos, out) && pos <= |x|
      invariant pos == |x| ==> hint == 0 && c.st == START && c.waiting == [] && out == content
      invariant |out| <= |content|
      decreases |x| - pos + |content| - |out|
    {
      var n := if 0 < slices(i) <= |x| - pos then slices(i) else if slices(i) == 0 then 1 else |x| - pos;
      var read, wrote;
      ReadingMeans(c, h, x, pos, out);
      hint, read, wrote, h := ReadSome(c, x, pos, n, rooms(i) + 1, content, h);
      pos, out, i := pos + read, out + wrote, i + 1;
      ReadingMeans(c, h, x, pos, out);
      DeliveredIsPrefix(c.env, x, content, h);
    }
    ReadingMeans(c, h, x, pos, out);
  }

  lemma ReadingMeans(c: DCtx, h: History, x: seq<byte>, pos: nat, out: seq<byte>)
    requires Reading(c, h, x, pos, out)
    ensures c.Valid() && Genuine(c.env, h) && pos <= |x| && AllRead(h) == x[..pos] && AllRead(h) <= x && AllWritten(h) == out
  {
    hide Settle, Genuine, AllRead, AllWritten, DCtx.Valid;
  }

  /** Before the first call. */
  lemma Untouched(c: DCtx, x: seq<byte>)
    requires c.Valid() && c.st == START && c.waiting == [] && c.srcExpect == None
    ensures Reading(c, Fresh, x, 0, [])
  {
    hide Settle, DCtx.Valid;
    StartSettled(c.env);
  }

  lemma StartSettled(env: Env)
    ensures Settle(env, START) == Res(START, [])
  {
  }

  lemma HoldsNothing(env: Env, x: seq<byte>, content: seq<byte>)
    requires Holds(env, x, content)
    ensures x == [] ==> content == []
  {
  }
}
