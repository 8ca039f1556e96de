/** LizardF_decompress, the resumable frame decoder, in independent-block mode
    (c-blosc2/internal-complibs/lizard-1.0/lizard_frame.c:713-1362). */
module LizardFrameDecoder {
  import opened Bytes
  import opened LittleEndian
  import opened LizardFrameSpec

  datatype Option<T> = None | Some(value: T)

  datatype Stage =
    | GetHeader | StoreHeader
    | GetCBlockSize | StoreCBlockSize
    | CopyDirect
    | GetCBlock | StoreCBlock
    | DecodeCBlock | DecodeIntoDst | DecodeIntoTmp | FlushOut
    | GetSuffix | StoreSuffix
    | GetSFrameSize | StoreSFrameSize
    | SkipSkippable

  /** The state of the machine that a result other than a hint reports. */
  function Dead(r: Result): St
    requires !r.Hint?
  {
    if r == Error then Bad else Linked
  }

  /** How a call ends: with a hint of how many bytes to bring next, 0 when a frame is
      complete; or with an error; or where a frame of linked blocks begins. */
  datatype Result = Hint(size: nat) | Error | LinkedMode

  /** What one turn of the state machine did: bytes read, bytes written, and whether
      the call is over. */
  datatype Turn = Go(read: nat, wrote: nat) | Stop(read: nat, wrote: nat, hint: nat) | Fail(r: Result)

  /** Without reading or writing, a call moves on to stages of lower rank only. */
  function Rank(d: Stage): nat {
    match d
    case DecodeCBlock => 4
    case DecodeIntoDst => 3
    case DecodeIntoTmp => 3
    case FlushOut => 2
    case StoreCBlock => 0
    case StoreSuffix => 0
    case _ => 1
  }

  /** LizardF_dctx_t. The scratch buffers are the bytes they hold; their capacities are
      `tmpInCap` and `maxBufferSize`. */
  class DCtx {
    const env: Env
    var frame: Frame
    var dStage: Stage
    var frameRemainingSize: nat
    var maxBufferSize: nat
    var tmpInCap: nat
    var srcExpect: Option<nat>
    var tmpIn: seq<byte>
    var tmpInTarget: nat
    var tmpOut: seq<byte>
    var tmpOutStart: nat
    var xxh: seq<byte>
    var header: seq<byte>
    var selectedIn: seq<byte>
    ghost var magic: seq<byte>
    ghost var st: St
    ghost var waiting: seq<byte>

    /** Whether a header has been read: the fields describe a frame. */
    predicate InFrame()
      reads this
    {
      !(dStage.GetHeader? || dStage.StoreHeader? || dStage.GetSFrameSize? || dStage.StoreSFrameSize?
        || dStage.SkipSkippable?)
    }

    /** The stages that reading a header can lead to. */
    predicate HeaderRead()
      reads this
    {
      dStage.StoreHeader? || dStage.GetSFrameSize? || dStage.StoreSFrameSize? || dStage.GetCBlockSize?
    }

    ghost predicate FrameInv()
      reads this
    {
      && frameRemainingSize == (if InFrame() then Remaining(frame) else 0)
      && (InFrame() ==> (frame.checksum ==> xxh == frame.content))
      && frame.maxBlockSize <= tmpInCap && frame.maxBlockSize <= maxBufferSize
    }

    /** In each stage the fields stand for the state `st` of the format's machine, with
        `waiting` decoded but not delivered. */
    ghost predicate StageInv()
      reads this
    {
      match dStage
      case GetHeader => st == START && waiting == []
      case StoreHeader =>
        && st == Collect(Header, tmpInTarget, header) && waiting == []
        && |header| < tmpInTarget && (tmpInTarget == MIN_FH_SIZE || tmpInTarget == MAX_FH_SIZE)
        && (tmpInTarget == MAX_FH_SIZE ==> |header| >= MIN_FH_SIZE && WantsMore(env, header[..MIN_FH_SIZE]))
      case GetSFrameSize =>
        && st == Collect(Header, MIN_FH_SIZE, magic) && waiting == []
        && |magic| == 4 && Skippable(magic)
      case StoreSFrameSize =>
        && MIN_FH_SIZE <= |header| < tmpInTarget == 8
        && st == Collect(SkipSize, 4, header[4..]) && waiting == []
      case SkipSkippable => st == Skip(tmpInTarget) && waiting == []
      case GetCBlockSize => st == NextBlock(frame) && waiting == []
      case StoreCBlockSize => st == Collect(BlockHead(frame), BH_SIZE, tmpIn) && waiting == [] && |tmpIn| < BH_SIZE
      case CopyDirect => st == Raw(frame, tmpInTarget) && waiting == [] && 0 < tmpInTarget <= frame.maxBlockSize
      case GetCBlock => st == Collect(Block(frame), tmpInTarget, []) && waiting == [] && 0 < tmpInTarget <= frame.maxBlockSize
      case StoreCBlock => st == Collect(Block(frame), tmpInTarget, tmpIn) && waiting == [] && |tmpIn| < tmpInTarget <= frame.maxBlockSize
      case DecodeCBlock => BlockSelected()
      case DecodeIntoDst => BlockSelected()
      case DecodeIntoTmp => BlockSelected()
      case FlushOut =>
        && tmpOutStart <= |tmpOut| <= frame.maxBlockSize
        && st == NextBlock(frame) && waiting == tmpOut[tmpOutStart..]
      case GetSuffix => st == Collect(BlockHead(frame), BH_SIZE, [0, 0, 0, 0]) && waiting == []
      case StoreSuffix => st == Collect(Suffix(frame), 4, tmpIn) && waiting == [] && |tmpIn| < 4 && frame.checksum && frameRemainingSize == 0
    }

    /** A whole block has been read, and is about to be decoded. */
    ghost predicate BlockSelected()
      reads this
    {
      && st == Collect(Block(frame), tmpInTarget, selectedIn) && waiting == []
      && |selectedIn| == tmpInTarget <= frame.maxBlockSize
    }

    /** The stages in which a call can end. */
    predicate AtRest()
      reads this
    {
      && !(dStage.DecodeCBlock? || dStage.DecodeIntoDst? || dStage.DecodeIntoTmp?
           || dStage.GetSuffix? || dStage.GetSFrameSize?)
      && (dStage == SkipSkippable ==> 0 < tmpInTarget)
    }

    ghost predicate Inv()
      reads this
    {
      Sane(env) && FrameInv() && StageInv()
    }

    ghost predicate Valid()
      reads this
    {
      Inv() && AtRest()
    }

    constructor (env: Env)
      requires Sane(env)
      ensures Valid() && this.env == env && st == START && waiting == [] && srcExpect.None?
    {
      this.env := env;
      frame, dStage, frameRemainingSize := Frame(0, false, 0, []), GetHeader, 0;
      maxBufferSize, tmpInCap, srcExpect := 0, 0, None;
      tmpIn, tmpInTarget, tmpOut, tmpOutStart := [], 0, [], 0;
      xxh, header, selectedIn, magic := [], [], [], [];
      st, waiting := START, [];
    }

    /** The machine has gone from the state `from`, with `p` waiting, to where it is by
        reading `c` and delivering `o`. */
    ghost predicate Came(from: St, p: seq<byte>, c: seq<byte>, o: seq<byte>)
      reads this
    {
      Moves(env, from, p, c, o, st, waiting)
    }

    /** Reading all of `c` from the state `from` ends in the error `r` reports. */
    ghost predicate Dies(from: St, c: seq<byte>, r: Result) {
      && !r.Hint?
      && Run(env, Settle(env, from), c).st == Dead(r)
    }

    /** The rest of LizardF_decodeHeader, once the whole header `h` of a frame is at
        hand: check it, save what it says, and make room for a block. */
    method ReadFrameHeader(h: seq<byte>) returns (r: Result)
      requires Sane(env) && NoFrame()
      requires |h| >= MIN_FH_SIZE
      requires |h| == HeaderSize(h[4])
      modifies this
      ensures r.Hint? ==> Inv() && dStage == GetCBlockSize && st == SettleFrameHeader(env, h)
      ensures !r.Hint? ==> SettleFrameHeader(env, h) == Dead(r)
    {
      hide ReadLE64, BlockSize, HeaderChecksum;
      var flg, bd := h[4], h[5];
      if flg / 64 != 1 || flg / 16 % 2 != 0 || flg % 4 != 0
        || bd / 128 != 0 || bd / 16 % 8 < 1 || bd % 16 != 0 {
        return Error;
      }
      if HeaderChecksum(env, h[4..|h| - 1]) != h[|h| - 1] {
        return Error;
      }
      if flg / 32 % 2 == 0 {
        return LinkedMode;
      }
      var contentSize := if |h| == MAX_FH_SIZE then ReadLE64(h[6..14]) else 0;
      InitFrame(Frame(BlockSize(bd / 16 % 8), flg / 4 % 2 == 1, contentSize, []));
      r := Hint(0);
    }

    lemma AtGetCBlockSize()
      requires dStage == GetCBlockSize && st == NextBlock(frame) && waiting == []
      ensures StageInv()
    {
    }

    /** Save what a header says and start with an empty frame. The buffers are
        reallocated when they are too small for a block. */
    method InitFrame(f: Frame)
      requires Sane(env) && frame.maxBlockSize <= tmpInCap && frame.maxBlockSize <= maxBufferSize && f.contentSize < TWO64 && f.content == []
      modifies this
      ensures Inv() && dStage == GetCBlockSize && st == NextBlock(f)
    {
      hide *;
      if f.maxBlockSize > maxBufferSize || f.maxBlockSize > frame.maxBlockSize {
        tmpInCap, maxBufferSize := f.maxBlockSize, f.maxBlockSize;
      }
      frame, frameRemainingSize, xxh := f, f.contentSize, [];
      tmpIn, tmpInTarget, tmpOut, tmpOutStart := [], 0, [], 0;
      dStage, st, waiting := GetCBlockSize, NextBlock(f), [];
      RemainingInitially(f);
      AtGetCBlockSize();
      FreshFrame();
    }

    lemma FreshFrame()
      requires Sane(env) && StageInv() && dStage == GetCBlockSize && frameRemainingSize == Remaining(frame)
      requires xxh == frame.content == [] && frame.maxBlockSize <= tmpInCap && frame.maxBlockSize <= maxBufferSize
      ensures Inv()
    {
      hide Remaining, Sane, StageInv;
    }

    /** A header that has been found to go on is long. */
    lemma LongHeader(h: seq<byte>)
      requires |h| >= MIN_FH_SIZE
      ensures |h| == MAX_FH_SIZE && WantsMore(env, h[..MIN_FH_SIZE]) ==> ReadLE32(h) == MAGIC && h[4] / 8 % 2 == 1
    {
      hide ReadLE32, ReadLE64, HeaderChecksum, BlockSize;
      ReadLE32Prefix(h, MIN_FH_SIZE);
      assert h[..MIN_FH_SIZE][4] == h[4];
    }

    /** Its first seven bytes tell. */
    lemma HeaderBeginning(h: seq<byte>)
      requires |h| >= MIN_FH_SIZE
      ensures ReadLE32(h) == MAGIC && h[4] / 8 % 2 == 1 ==> WantsMore(env, h[..MIN_FH_SIZE])
    {
      hide ReadLE32;
      ReadLE32Prefix(h, MIN_FH_SIZE);
      assert h[..MIN_FH_SIZE][4] == h[4];
    }

    lemma OutOfFrame()
      requires FrameInv() && !InFrame()
      ensures NoFrame()
      ensures frameRemainingSize == 0 && frame.maxBlockSize <= tmpInCap && frame.maxBlockSize <= maxBufferSize
    {
    }

    lemma NoFrameIs()
      requires frameRemainingSize == 0 && frame.maxBlockSize <= tmpInCap && frame.maxBlockSize <= maxBufferSize
      ensures NoFrame()
    {
    }

    /** The stages in which a header, or what comes instead of one, has been begun. */
    lemma HeaderStage()
      requires Sane(env) && NoFrame() && waiting == []
      requires || (dStage.StoreSFrameSize? && MIN_FH_SIZE <= |header| < tmpInTarget == 8 && st == Collect(SkipSize, 4, header[4..]))
               || (dStage.GetSFrameSize? && |magic| == 4 && Skippable(magic) && st == Collect(Header, MIN_FH_SIZE, magic))
               || (dStage.StoreHeader? && tmpInTarget == MAX_FH_SIZE && MIN_FH_SIZE <= |header| < tmpInTarget
                   && st == Collect(Header, tmpInTarget, header) && WantsMore(env, header[..MIN_FH_SIZE]))
      ensures Inv() && HeaderRead()
    {
      hide Sane, Remaining, Skippable, WantsMore;
    }

    lemma BeginsFrame()
      ensures dStage == GetCBlockSize ==> HeaderRead()
    {
    }

    /** LizardF_decodeHeader on the bytes `h`; `stored` when they come from the header
        buffer. `size` is what it reads of them. */
    method DecodeHeader(h: seq<byte>, stored: bool) returns (r: Result, size: nat)
      requires Sane(env) && FrameInv() && !InFrame()
      requires if stored then |h| == MIN_FH_SIZE || |h| == MAX_FH_SIZE else |h| >= MAX_FH_SIZE
      requires stored && |h| == MAX_FH_SIZE ==> WantsMore(env, h[..MIN_FH_SIZE])
      modifies this
      ensures r.Hint? ==> Inv() && HeaderRead()
      ensures r.Hint? && dStage == GetSFrameSize ==> !stored && size == 4 && magic == h[..4]
      ensures !r.Hint? || dStage != GetSFrameSize ==>
                && 0 < size <= |h| && (stored ==> size == |h|)
                && (size == MIN_FH_SIZE || (size == MAX_FH_SIZE && WantsMore(env, h[..MIN_FH_SIZE])))
                && SettleHeader(env, h[..size])
                   == (if r.Hint? then st else Dead(r))
    {
      hide SettleFrameHeader, ReadLE32, WantsMore;
      hide Inv, FrameInv, StageInv, FrameFields, NoFrame, BlockSelected, InFrame, AtRest, Sane, Remaining, Came, HeaderRead;
      ReadLE32Prefix(h, 4);
      ReadLE32Prefix(h, MIN_FH_SIZE);
      LongHeader(h);
      HeaderBeginning(h);
      OutOfFrame();
      frame := frame.(checksum := false, contentSize := 0);
      NoFrameIs();
      assert h[..MIN_FH_SIZE][4] == h[4];
      if ReadLE32(h) / 16 * 16 == MAGIC_SKIPPABLE {
        if stored {
          header, tmpInTarget, dStage := h, 8, StoreSFrameSize;
          st, waiting := Collect(SkipSize, 4, h[4..]), [];
          HeaderStage();
          return Hint(0), |h|;
        } else {
          magic, dStage := h[..4], GetSFrameSize;
          st, waiting := Collect(Header, MIN_FH_SIZE, magic), [];
          HeaderStage();
          return Hint(0), 4;
        }
      }
      if ReadLE32(h) != MAGIC {
        return Error, MIN_FH_SIZE;
      }
      size := if h[4] / 8 % 2 == 1 then MAX_FH_SIZE else MIN_FH_SIZE;
      ReadLE32Prefix(h, if |h| < size then |h| else size);
      if |h| < size {
        header, tmpInTarget, dStage := h, size, StoreHeader;
        st, waiting := Collect(Header, size, h), [];
        HeaderStage();
        return Hint(0), |h|;
      }
      r := ReadFrameHeader(h[..size]);
      BeginsFrame();
    }

    /** What a turn of the machine that could read `c` and delivered `o` must have
        done, starting from `from` with `p` waiting. */
    ghost predicate Did(t: Turn, from: St, p: seq<byte>, c: seq<byte>, o: seq<byte>)
      reads this
    {
      match t
      case Fail(r) => Dies(from, c, r)
      case Go(read, wrote) =>
        && DidMove(read, wrote, from, p, c, o) && !dStage.GetHeader?
        && (dStage.GetSFrameSize? ==> read + 4 <= |c|)
      case Stop(read, wrote, hint) =>
        && DidMove(read, wrote, from, p, c, o) && AtRest()
        && (hint == 0 <==> dStage.GetHeader?) && (hint == 0 || hint == Wanted(st))
    }

    ghost predicate DidMove(read: nat, wrote: nat, from: St, p: seq<byte>, c: seq<byte>, o: seq<byte>)
      reads this
    {
      && read <= |c| && wrote == |o| && Inv() && Came(from, p, c[..read], o)
      && !dStage.DecodeIntoDst?
      && (st == START ==> dStage.GetHeader? || (from == START && read == 0))
    }

    // What the invariant says in a stage, and what it takes to say it again. The turns
    // below see no more of it than that.

    /** What the fields say about a frame, in any stage within it. */
    ghost predicate FrameFields()
      reads this`frame, this`frameRemainingSize, this`xxh, this`tmpInCap, this`maxBufferSize
    {
      && frameRemainingSize == Remaining(frame) && (frame.checksum ==> xxh == frame.content)
      && frame.maxBlockSize <= tmpInCap && frame.maxBlockSize <= maxBufferSize
    }

    lemma FrameHeld()
      requires FrameInv() && InFrame()
      ensures FrameFields()
    {
    }

    lemma FrameHolds()
      requires FrameFields() && InFrame()
      ensures FrameInv()
    {
    }

    lemma InBlock()
      requires Inv()
      ensures Sane(env)
      ensures dStage.CopyDirect? || dStage.GetCBlock? || dStage.StoreCBlock? || dStage.DecodeIntoDst? || dStage.DecodeIntoTmp? ==>
                FrameFields() && waiting == [] && tmpInTarget <= frame.maxBlockSize
      ensures dStage.CopyDirect? ==> st == Raw(frame, tmpInTarget) && 0 < tmpInTarget
      ensures dStage.GetCBlock? ==> st == Collect(Block(frame), tmpInTarget, []) && 0 < tmpInTarget
      ensures dStage.StoreCBlock? ==> st == Collect(Block(frame), tmpInTarget, tmpIn) && |tmpIn| < tmpInTarget
      ensures dStage.DecodeIntoDst? || dStage.DecodeIntoTmp? ==> st == Collect(Block(frame), tmpInTarget, selectedIn) && |selectedIn| == tmpInTarget
    {
      hide Remaining, Sane;
    }

    lemma InHead()
      requires Inv()
      ensures Sane(env)
      ensures dStage.GetCBlockSize? || dStage.StoreCBlockSize? || dStage.FlushOut? ==> FrameFields()
      ensures dStage.GetCBlockSize? ==> st == Collect(BlockHead(frame), BH_SIZE, []) && waiting == []
      ensures dStage.StoreCBlockSize? ==> st == Collect(BlockHead(frame), BH_SIZE, tmpIn) && waiting == [] && |tmpIn| < BH_SIZE
      ensures dStage.FlushOut? ==>
                && tmpOutStart <= |tmpOut| <= frame.maxBlockSize && st == NextBlock(frame) && waiting == tmpOut[tmpOutStart..]
    {
      hide Remaining, Sane;
    }

    /** A stage in which nothing waits to be delivered. */
    lemma BlockStage()
      requires Sane(env) && FrameFields() && waiting == [] && tmpInTarget <= frame.maxBlockSize
      requires || (dStage.CopyDirect? && st == Raw(frame, tmpInTarget) && 0 < tmpInTarget)
               || (dStage.StoreCBlock? && st == Collect(Block(frame), tmpInTarget, tmpIn) && |tmpIn| < tmpInTarget)
               || (dStage.DecodeCBlock? && st == Collect(Block(frame), tmpInTarget, selectedIn) && |selectedIn| == tmpInTarget)
      ensures Inv() && st != START && (AtRest() <==> !dStage.DecodeCBlock?)
    {
      hide Remaining, Sane;
    }

    lemma HeadStage()
      requires Sane(env) && FrameFields()
      requires || (dStage.GetCBlockSize? && st == NextBlock(frame) && waiting == [])
               || (dStage.StoreCBlockSize? && st == Collect(BlockHead(frame), BH_SIZE, tmpIn) && waiting == [] && |tmpIn| < BH_SIZE)
               || (dStage.FlushOut? && tmpOutStart <= |tmpOut| <= frame.maxBlockSize && st == NextBlock(frame) && waiting == tmpOut[tmpOutStart..])
      ensures Inv() && st != START && AtRest()
    {
      hide Remaining, Sane;
    }

    /** What the fields say outside a frame. */
    ghost predicate NoFrame()
      reads this`frame, this`frameRemainingSize, this`tmpInCap, this`maxBufferSize
    {
      frameRemainingSize == 0 && frame.maxBlockSize <= tmpInCap && frame.maxBlockSize <= maxBufferSize
    }

    lemma InSkip()
      requires Inv()
      ensures Sane(env)
      ensures dStage.GetSFrameSize? || dStage.StoreSFrameSize? ==> NoFrame() && waiting == []
      ensures dStage.GetSFrameSize? ==> st == Collect(Header, MIN_FH_SIZE, magic) && |magic| == 4 && Skippable(magic)
      ensures dStage.StoreSFrameSize? ==> 4 <= |header| < tmpInTarget == 8 && MIN_FH_SIZE <= |header| && st == Collect(SkipSize, 4, header[4..])
    {
      hide Remaining, Sane, Skippable;
    }

    lemma SkipStage()
      requires Sane(env) && NoFrame() && waiting == [] && dStage.StoreSFrameSize?
      requires MIN_FH_SIZE <= |header| < tmpInTarget == 8 && st == Collect(SkipSize, 4, header[4..])
      ensures Inv() && AtRest() && st != START
    {
      hide Remaining, Sane;
    }

    lemma DidGo(read: nat, wrote: nat, from: St, p: seq<byte>, c: seq<byte>, o: seq<byte>)
      requires read <= |c| && wrote == |o| && Inv() && Moves(env, from, p, c[..read], o, st, waiting)
      requires !dStage.DecodeIntoDst? && !dStage.GetHeader? && !dStage.GetSFrameSize? && st != START
      ensures Did(Go(read, wrote), from, p, c, o)
    {
      hide Moves, Inv;
    }

    lemma DidStop(read: nat, wrote: nat, hint: nat, from: St, p: seq<byte>, c: seq<byte>, o: seq<byte>)
      requires read <= |c| && wrote == |o| && Inv() && AtRest() && Moves(env, from, p, c[..read], o, st, waiting)
      requires !dStage.DecodeIntoDst? && !dStage.GetHeader? && st != START && hint == Wanted(st) > 0
      ensures Did(Stop(read, wrote, hint), from, p, c, o)
    {
      hide Moves, Inv;
    }

    lemma DidFail(from: St, c: seq<byte>)
      requires Run(env, Settle(env, from), c).st == Bad
      ensures Did(Fail(Error), from, [], c, [])
    {
      hide Run, Settle;
    }

    /** The bytes of a header that are at hand, joining those stored before. */
    method StoreHeaderTurn(src: seq<byte>, sp: nat) returns (t: Turn)
      requires Inv() && dStage == StoreHeader && sp <= |src|
      modifies this
      ensures Did(t, old(st), [], src[sp..], [])
      ensures t.Go? ==> t.read > 0
      ensures t.Stop? ==> sp + t.read == |src| || t.hint == 0
      ensures t.Fail? || t.read > 0 || (sp == |src| && t.Stop? && t.hint > 0)
      ensures t.Stop? ==> dStage != FlushOut
    {
      hide Run, Settle, SettleHeader, Moves;
      ghost var from, c := st, src[sp..];
      var sizeToCopy := Min(tmpInTarget - |header|, |src| - sp);
      CollectMoves(env, Header, tmpInTarget, header, [], c[..sizeToCopy]);
      assert src[sp..sp + sizeToCopy] == c[..sizeToCopy];
      assert |header| >= MIN_FH_SIZE ==> (header + c[..sizeToCopy])[..MIN_FH_SIZE] == header[..MIN_FH_SIZE];
      header := header + src[sp..sp + sizeToCopy];
      st := Collect(Header, tmpInTarget, header);
      if |header| < tmpInTarget {
        return Stop(sizeToCopy, 0, tmpInTarget - |header| + BH_SIZE);
      }
      ghost var mid, h := st, header;
      var r, size := DecodeHeader(header, true);
      assert h[..|h|] == h;
      if r.Hint? {
        HeaderSettles(env, h, st);
        MovesOn(env, from, [], c[..sizeToCopy], mid, [], st, []);
        t := Go(sizeToCopy, 0);
      } else {
        HeaderSettles(env, h, Dead(r));
        DiesEarly(env, from, [], c, sizeToCopy, [], mid, []);
        t := Fail(r);
      }
    }

    /** The header, or as much of one as there can be, is at hand: decode it on the spot. */
    method HeaderAtOnce(src: seq<byte>, sp: nat) returns (t: Turn)
      requires Inv() && dStage == GetHeader && sp + MAX_FH_SIZE <= |src|
      modifies this
      ensures !t.Stop? && Did(t, old(st), [], src[sp..], [])
      ensures t.Fail? || t.read > 0
    {
      hide Run, Settle, SettleHeader, Moves;
      ghost var c := src[sp..];
      var r, size := DecodeHeader(src[sp..], false);
      if r.Hint? && dStage == GetSFrameSize {
        CollectMoves(env, Header, MIN_FH_SIZE, [], [], c[..size]);
        assert [] + c[..size] == c[..size];
        return Go(size, 0);
      }
      ghost var h := c[..size];
      assert size == MAX_FH_SIZE ==> h[..MIN_FH_SIZE] == c[..MIN_FH_SIZE];
      HeaderMoves(env, h);
      if r.Hint? {
        HeaderSettles(env, h, st);
        MovesOn(env, START, [], h, Collect(Header, |h|, h), [], st, []);
        t := Go(size, 0);
      } else {
        HeaderSettles(env, h, Dead(r));
        DiesEarly(env, START, [], c, size, [], Collect(Header, |h|, h), []);
        t := Fail(r);
      }
    }

    method BeginHeader()
      requires Inv() && dStage == GetHeader
      modifies this
      ensures Inv() && dStage == StoreHeader && st == old(st)
    {
      header, tmpInTarget, dStage := [], MIN_FH_SIZE, StoreHeader;
    }

    /** The start of a frame. */
    method GetHeaderTurn(src: seq<byte>, sp: nat) returns (t: Turn)
      requires Inv() && dStage == GetHeader && sp <= |src|
      modifies this
      ensures Did(t, old(st), [], src[sp..], [])
      ensures t.Go? ==> t.read > 0
      ensures t.Stop? ==> sp + t.read == |src| || t.hint == 0
      ensures t.Fail? || t.read > 0 || (sp == |src| && t.Stop? && t.hint > 0)
      ensures t.Stop? ==> dStage != FlushOut
    {
      hide Inv, Did;
      if |src| - sp >= MAX_FH_SIZE {
        t := HeaderAtOnce(src, sp);
      } else {
        BeginHeader();
        t := StoreHeaderTurn(src, sp);
      }
    }

    method BeginSkip(size: nat)
      requires Sane(env) && NoFrame() && waiting == []
      modifies this
      ensures Inv() && dStage == SkipSkippable && st == Skip(size) && waiting == []
    {
      tmpInTarget, dStage, st := size, SkipSkippable, Skip(size);
      frame := frame.(contentSize := size);
    }

    /** The size of a skippable frame. */
    method SkipSizeTurn(src: seq<byte>, sp: nat) returns (t: Turn)
      requires Inv() && sp <= |src|
      requires dStage == StoreSFrameSize || (dStage == GetSFrameSize && |src| - sp >= 4)
      modifies this
      ensures Did(t, old(st), [], src[sp..], [])
      ensures t.Go? ==> t.read > 0
      ensures t.Stop? ==> sp + t.read == |src| || t.hint == 0
      ensures t.Stop? ==> dStage != FlushOut
    {
      hide Run, Settle, Moves, Skippable, ReadLE32;
      hide Inv, FrameInv, StageInv, FrameFields, BlockSelected, InFrame, AtRest, Sane, Remaining, Did, DidMove, Came, Dies;
      InSkip();
      ghost var from, c := st, src[sp..];
      var read;
      if dStage == GetSFrameSize {
        selectedIn, read := src[sp..sp + 4], 4;
        SkipSizeMoves(env, magic, selectedIn);
      } else {
        var sizeToCopy := Min(tmpInTarget - |header|, |src| - sp);
        CollectMoves(env, SkipSize, 4, header[4..], [], c[..sizeToCopy]);
        assert src[sp..sp + sizeToCopy] == c[..sizeToCopy];
        assert (header + c[..sizeToCopy])[4..] == header[4..] + c[..sizeToCopy];
        header := header + src[sp..sp + sizeToCopy];
        st := Collect(SkipSize, 4, header[4..]);
        if |header| < tmpInTarget {
          t := Stop(sizeToCopy, 0, tmpInTarget - |header|);
          SkipStage();
          DidStop(sizeToCopy, 0, t.hint, from, [], c, []);
          return;
        }
        selectedIn, read := header[4..], sizeToCopy;
      }
      ghost var mid := Collect(SkipSize, 4, selectedIn);
      assert c[..read] == src[sp..sp + read];
      SkipSizeSettles(env, selectedIn);
      BeginSkip(ReadLE32(selectedIn));
      MovesOn(env, from, [], c[..read], mid, [], st, []);
      t := Go(read, 0);
      DidGo(read, 0, from, [], c, []);
    }

    /** The rest of a skippable frame. */
    method SkipTurn(src: seq<byte>, sp: nat) returns (t: Turn)
      requires Inv() && sp <= |src| && dStage == SkipSkippable
      modifies this
      ensures Did(t, old(st), [], src[sp..], [])
      ensures !t.Go?
      ensures t.Stop? ==> sp + t.read == |src| || t.hint == 0
      ensures t.Stop? ==> dStage != FlushOut
    {
      hide Run, Settle, Moves;
      ghost var from, c := st, src[sp..];
      var skipSize := Min(tmpInTarget, |src| - sp);
      SkipMoves(env, tmpInTarget, c[..skipSize]);
      tmpInTarget := tmpInTarget - skipSize;
      st := Skip(tmpInTarget);
      if tmpInTarget == 0 {
        SkipSettles(env);
        MovesOn(env, from, [], c[..skipSize], Skip(0), [], START, []);
        dStage, st := GetHeader, START;
      }
      t := Stop(skipSize, 0, tmpInTarget);
    }

    /** The four bytes before a block, or the end mark. */
    method BlockHeadTurn(src: seq<byte>, sp: nat, dstFull: bool) returns (t: Turn)
      requires Inv() && sp <= |src| && (dStage == GetCBlockSize || dStage == StoreCBlockSize)
      modifies this
      ensures Did(t, old(st), [], src[sp..], [])
      ensures t.Go? ==> t.read > 0
      ensures t.Stop? ==> sp + t.read == |src| || t.hint == 0 || dstFull
      ensures t.Stop? ==> dStage != FlushOut
    {
      hide Run, Settle, Moves, Inv, FrameInv, StageInv, FrameFields, BlockSelected, InFrame, AtRest, Sane, Remaining, Did, DidMove, Came, Dies;
      hide ReadLE32, SettleBlockHead;
      InHead();
      ghost var from, c := st, src[sp..];
      var read;
      if dStage == GetCBlockSize && |src| - sp >= BH_SIZE {
        selectedIn, read := src[sp..sp + BH_SIZE], BH_SIZE;
        CollectMoves(env, BlockHead(frame), BH_SIZE, [], [], selectedIn);
        assert [] + selectedIn == selectedIn;
      } else {
        if dStage == GetCBlockSize {
          tmpIn, dStage := [], StoreCBlockSize;
        }
        var sizeToCopy := Min(BH_SIZE - |tmpIn|, |src| - sp);
        CollectMoves(env, BlockHead(frame), BH_SIZE, tmpIn, [], c[..sizeToCopy]);
        assert src[sp..sp + sizeToCopy] == c[..sizeToCopy];
        tmpIn := tmpIn + src[sp..sp + sizeToCopy];
        st := Collect(BlockHead(frame), BH_SIZE, tmpIn);
        if |tmpIn| < BH_SIZE {
          t := Stop(sizeToCopy, 0, BH_SIZE - |tmpIn|);
          HeadStage();
          DidStop(sizeToCopy, 0, t.hint, from, [], c, []);
          return;
        }
        selectedIn, read := tmpIn, sizeToCopy;
      }
      ghost var mid := Collect(BlockHead(frame), BH_SIZE, selectedIn);
      assert c[..read] == src[sp..sp + read];
      var ok := BeginBlock(selectedIn);
      if !ok {
        DiesEarly(env, from, [], c, read, [], mid, []);
        DidFail(from, c);
        return Fail(Error);
      }
      MovesOn(env, from, [], c[..read], mid, [], st, []);
      if dStage == GetCBlock && dstFull {
        t := Stop(read, 0, tmpInTarget + BH_SIZE);
        DidStop(read, 0, t.hint, from, [], c, []);
      } else {
        t := Go(read, 0);
        DidGo(read, 0, from, [], c, []);
      }
    }

    /** Act on the four bytes before a block. */
    method BeginBlock(b: seq<byte>) returns (ok: bool)
      requires Sane(env) && FrameFields() && waiting == [] && |b| == BH_SIZE
      modifies this
      ensures frame == old(frame) && (ok && dStage == GetCBlock ==> AtRest() && Wanted(st) == tmpInTarget + BH_SIZE)
      ensures var s := Settle(env, Collect(BlockHead(old(frame)), BH_SIZE, b));
              if ok then
                && Inv() && waiting == [] && s.out == [] && Settle(env, st) == s && st != START
                && (dStage == GetSuffix || dStage == CopyDirect || dStage == GetCBlock)
              else s == Res(Bad, [])
    {
      hide Settle, ReadLE32, Remaining;
      BlockHeadSettles(env, frame, b);
      BlockHeadSettles(env, frame, [0, 0, 0, 0]);
      var nextCBlockSize := ReadLE32(b) % UNCOMPRESSED_FLAG;
      if nextCBlockSize == 0 {
        EndMarkSettles(frame, b);
        dStage, st := GetSuffix, Collect(BlockHead(frame), BH_SIZE, [0, 0, 0, 0]);
        return true;
      }
      if nextCBlockSize > frame.maxBlockSize {
        return false;
      }
      tmpInTarget := nextCBlockSize;
      if ReadLE32(b) >= UNCOMPRESSED_FLAG {
        dStage, st := CopyDirect, Raw(frame, tmpInTarget);
      } else {
        dStage, st := GetCBlock, Collect(Block(frame), tmpInTarget, []);
      }
      ok := true;
    }

    /** Account for bytes regenerated: the running hash, the size still expected. */
    method AddContent(c: seq<byte>)
      requires FrameFields()
      modifies this`xxh, this`frameRemainingSize, this`frame
      ensures FrameFields() && frame == old(frame).(content := old(frame).content + c)
    {
      hide Remaining;
      RemainingLess(frame, c);
      if frame.checksum {
        xxh := xxh + c;
      }
      if frame.contentSize != 0 {
        frameRemainingSize := (frameRemainingSize - |c|) % TWO64;
      } else {
        NothingDeclared(frame);
      }
      frame := frame.(content := frame.content + c);
    }

    lemma NothingDeclared(f: Frame)
      requires f.contentSize == 0
      ensures Remaining(f) == 0
    {
    }

    /** Part of an uncompressed block: as much as the source has and the destination
        takes. */
    method CopyDirectTurn(src: seq<byte>, sp: nat, dst: array<byte>, dp: nat, dstEnd: nat) returns (t: Turn)
      requires Inv() && dStage == CopyDirect && sp <= |src| && dp <= dstEnd <= dst.Length
      modifies this, dst
      ensures !t.Fail? && dp + t.wrote <= dstEnd
      ensures Did(t, old(st), [], src[sp..], dst[dp..dp + t.wrote])
      ensures t.Go? ==> t.read > 0
      ensures forall k :: 0 <= k < dst.Length && !(dp <= k < dp + t.wrote) ==> dst[k] == old(dst[k])
      ensures t.Stop? ==> sp + t.read == |src| || dp + t.wrote == dstEnd
      ensures t.Stop? ==> dStage != FlushOut
    {
      hide Run, Settle, Moves, Inv, FrameInv, StageInv, FrameFields, BlockSelected, InFrame, AtRest, Sane, Remaining, Did, DidMove, Came, Dies;
      InBlock();
      ghost var from, all := st, src[sp..];
      var sizeToCopy := Min(Min(tmpInTarget, |src| - sp), dstEnd - dp);
      var c := src[sp..sp + sizeToCopy];
      assert src[sp..][..sizeToCopy] == c;
      Write(dst, dp, c);
      RawMoves(env, frame, tmpInTarget, c);
      AddContent(c);
      if sizeToCopy == tmpInTarget {
        dStage, st := GetCBlockSize, NextBlock(frame);
        RawSettles(env, frame);
        SettleMoves(env, Raw(frame, 0), [], [], st, []);
        MovesCompose(env, from, [], c, c, Raw(frame, 0), [], [], [], st, []);
        assert c + [] == c;
        t := Go(sizeToCopy, sizeToCopy);
        HeadStage();
        DidGo(sizeToCopy, sizeToCopy, from, [], all, c);
      } else {
        tmpInTarget := tmpInTarget - sizeToCopy;
        st := Raw(frame, tmpInTarget);
        t := Stop(sizeToCopy, sizeToCopy, tmpInTarget + BH_SIZE);
        BlockStage();
        DidStop(sizeToCopy, sizeToCopy, t.hint, from, [], all, c);
      }
    }

    /** A compressed block: taken from the source when it is all there. */
    method GetCBlockTurn(src: seq<byte>, sp: nat) returns (t: Turn)
      requires Inv() && dStage == GetCBlock && sp <= |src|
      modifies this
      ensures t.Go? && Did(t, old(st), [], src[sp..], [])
      ensures t.read > 0 || dStage == StoreCBlock
      ensures t.Stop? ==> dStage != FlushOut
    {
      hide Run, Settle, Moves, Inv, FrameInv, StageInv, FrameFields, BlockSelected, InFrame, AtRest, Sane, Remaining, Did, DidMove, Came, Dies;
      InBlock();
      MovesNowhere(env, st, []);
      if |src| - sp < tmpInTarget {
        tmpIn, dStage := [], StoreCBlock;
        assert src[sp..][..0] == [];
        BlockStage();
        DidGo(0, 0, st, [], src[sp..], []);
        return Go(0, 0);
      }
      ghost var from := st;
      selectedIn := src[sp..sp + tmpInTarget];
      assert src[sp..][..tmpInTarget] == selectedIn && [] + selectedIn == selectedIn;
      CollectMoves(env, Block(frame), tmpInTarget, [], [], selectedIn);
      dStage, st := DecodeCBlock, Collect(Block(frame), tmpInTarget, selectedIn);
      t := Go(tmpInTarget, 0);
      BlockStage();
      DidGo(tmpInTarget, 0, from, [], src[sp..], []);
    }

    /** A compressed block: gathered in the input buffer otherwise. */
    method StoreCBlockTurn(src: seq<byte>, sp: nat) returns (t: Turn)
      requires Inv() && dStage == StoreCBlock && sp <= |src|
      modifies this
      ensures !t.Fail? && Did(t, old(st), [], src[sp..], [])
      ensures t.Go? ==> t.read > 0
      ensures t.Stop? ==> sp + t.read == |src| || t.hint == 0
      ensures t.Stop? ==> dStage != FlushOut
    {
      hide Run, Settle, Moves, Inv, FrameInv, StageInv, FrameFields, BlockSelected, InFrame, AtRest, Sane, Remaining, Did, DidMove, Came, Dies;
      InBlock();
      ghost var from := st;
      var sizeToCopy := Min(tmpInTarget - |tmpIn|, |src| - sp);
      CollectMoves(env, Block(frame), tmpInTarget, tmpIn, [], src[sp..][..sizeToCopy]);
      assert src[sp..sp + sizeToCopy] == src[sp..][..sizeToCopy];
      tmpIn := tmpIn + src[sp..sp + sizeToCopy];
      st := Collect(Block(frame), tmpInTarget, tmpIn);
      if |tmpIn| < tmpInTarget {
        t := Stop(sizeToCopy, 0, tmpInTarget - |tmpIn| + BH_SIZE);
        BlockStage();
        DidStop(sizeToCopy, 0, t.hint, from, [], src[sp..], []);
        return;
      }
      selectedIn, dStage := tmpIn, DecodeCBlock;
      t := Go(sizeToCopy, 0);
      BlockStage();
      DidGo(sizeToCopy, 0, from, [], src[sp..], []);
    }

    /** Where to decode the selected block: into the destination when it is sure to
        hold it, into the output buffer otherwise. */
    method DecodeCBlockTurn(room: nat) returns (t: Turn)
      requires Inv() && dStage == DecodeCBlock
      modifies this`dStage
      ensures t == Go(0, 0) && Inv() && Came(old(st), [], [], [])
      ensures dStage == DecodeIntoTmp || (dStage == DecodeIntoDst && frame.maxBlockSize <= room)
    {
      hide Run, Settle, Moves;
      dStage := if room < frame.maxBlockSize then DecodeIntoTmp else DecodeIntoDst;
      MovesNowhere(env, st, []);
      t := Go(0, 0);
    }

    static lemma AddNothing(b: seq<byte>)
      ensures [] + b == b + [] == b && b + [] + [] == b && b[0..] == b && b[..0] == []
      ensures var none: seq<byte> := []; none[..0] == none
    {
    }

    lemma DecodedFits()
      requires Sane(env)
      ensures var d := env.decode(selectedIn, frame.maxBlockSize); d.Done? ==> |d.bytes| <= frame.maxBlockSize
    {
    }

    /** Decode the selected block into the destination. */
    method DecodeIntoDstTurn(dst: array<byte>, dp: nat, dstEnd: nat) returns (t: Turn)
      requires Inv() && dStage == DecodeIntoDst
      requires dp <= dstEnd <= dst.Length && frame.maxBlockSize <= dstEnd - dp
      modifies this, dst
      ensures t == Fail(Error) || (t.Go? && t.read == 0 && dp + t.wrote <= dstEnd && dStage == GetCBlockSize)
      ensures t.Fail? ==> Settle(env, old(st)).st == Bad
      ensures t.Go? ==> Did(t, old(st), [], [], dst[dp..dp + t.wrote])
      ensures t.Go? ==> forall k :: 0 <= k < dst.Length && !(dp <= k < dp + t.wrote) ==> dst[k] == old(dst[k])
    {
      hide Run, Settle, Moves, Inv, FrameInv, StageInv, FrameFields, BlockSelected, InFrame, AtRest, Sane, Remaining, Did, DidMove, Came, Dies;
      InBlock();
      ghost var from := st;
      DecodedFits();
      BlockSettles(env, frame, selectedIn);
      match env.decode(selectedIn, frame.maxBlockSize)
      case Done(bytes) =>
        AddContent(bytes);
        Write(dst, dp, bytes);
        dStage, st := GetCBlockSize, NextBlock(frame);
        AddNothing(bytes);
        SettleMoves(env, from, [], bytes, st, []);
        t := Go(0, |bytes|);
        HeadStage();
        DidGo(0, |bytes|, from, [], [], bytes);
      case _ =>
        t := Fail(Error);
    }

    /** Decode the selected block into the output buffer. */
    method DecodeIntoTmpTurn() returns (t: Turn)
      requires Inv() && dStage == DecodeIntoTmp
      modifies this
      ensures t == Fail(Error) || (t == Go(0, 0) && dStage == FlushOut)
      ensures t.Fail? ==> Settle(env, old(st)).st == Bad
      ensures t.Go? ==> Did(t, old(st), [], [], [])
    {
      hide Run, Settle, Moves, Inv, FrameInv, StageInv, FrameFields, BlockSelected, InFrame, AtRest, Sane, Remaining, Did, DidMove, Came, Dies;
      InBlock();
      ghost var from := st;
      DecodedFits();
      BlockSettles(env, frame, selectedIn);
      match env.decode(selectedIn, frame.maxBlockSize)
      case Done(bytes) =>
        AddContent(bytes);
        tmpOut, tmpOutStart, dStage := bytes, 0, FlushOut;
        st, waiting := NextBlock(frame), bytes;
        AddNothing(bytes);
        SettleMoves(env, from, [], [], st, bytes);
        t := Go(0, 0);
        HeadStage();
        DidGo(0, 0, from, [], [], []);
      case _ =>
        t := Fail(Error);
    }

    /** memcpy into the destination. */
    static method Write(dst: array<byte>, dp: nat, bytes: seq<byte>)
      requires dp + |bytes| <= dst.Length
      modifies dst
      ensures dst[dp..dp + |bytes|] == bytes
      ensures forall k :: 0 <= k < dst.Length && !(dp <= k < dp + |bytes|) ==> dst[k] == old(dst[k])
    {
      forall k | dp <= k < dp + |bytes| {
        dst[k] := bytes[k - dp];
      }
    }

    /** Deliver decoded bytes. */
    method FlushTurn(dst: array<byte>, dp: nat, dstEnd: nat) returns (t: Turn)
      requires Inv() && dStage == FlushOut && dp <= dstEnd <= dst.Length
      modifies this, dst
      ensures !t.Fail? && t.read == 0 && dp + t.wrote <= dstEnd
      ensures Did(t, old(st), old(waiting), [], dst[dp..dp + t.wrote])
      ensures t.Go? ==> dStage == GetCBlockSize
      ensures forall k :: 0 <= k < dst.Length && !(dp <= k < dp + t.wrote) ==> dst[k] == old(dst[k])
      ensures t.Stop? ==> dp + t.wrote == dstEnd
    {
      hide Run, Settle, Moves, Inv, FrameInv, StageInv, FrameFields, BlockSelected, InFrame, AtRest, Sane, Remaining, Did, DidMove, Came, Dies;
      InHead();
      ghost var before, from := waiting, st;
      ghost var none: seq<byte> := [];
      assert none[..0] == [];
      var sizeToCopy := Min(|tmpOut| - tmpOutStart, dstEnd - dp);
      var o := tmpOut[tmpOutStart..tmpOutStart + sizeToCopy];
      Write(dst, dp, o);
      tmpOutStart := tmpOutStart + sizeToCopy;
      waiting := tmpOut[tmpOutStart..];
      assert before == o + waiting;
      ConcatAssoc(o, waiting, Settle(env, st).out);
      SettleMoves(env, st, before, o, st, waiting);
      if tmpOutStart == |tmpOut| {
        dStage := GetCBlockSize;
        t := Go(0, sizeToCopy);
        HeadStage();
        DidGo(0, sizeToCopy, from, before, none, o);
      } else {
        t := Stop(0, sizeToCopy, BH_SIZE);
        HeadStage();
        DidStop(0, sizeToCopy, BH_SIZE, from, before, none, o);
      }
    }

    /** The end of a frame: its size must be the declared one; what follows is a
        checksum, where the frame has one. */
    method GetSuffixTurn(src: seq<byte>, sp: nat) returns (t: Turn)
      requires Inv() && sp <= |src| && dStage == GetSuffix
      modifies this
      ensures Did(t, old(st), [], src[sp..], [])
      ensures t.Go? ==> dStage == StoreSuffix
      ensures t.Stop? ==> sp + t.read == |src| || t.hint == 0
      ensures t.Stop? ==> dStage != FlushOut
    {
      hide Run, Settle, Moves, Remaining;
      ghost var from, c := st, src[sp..];
      EndMarkMeans(env, frame);
      MovesNowhere(env, from, []);
      assert c[..0] == [];
      if frameRemainingSize != 0 {
        DiesEarly(env, from, [], c, 0, [], from, []);
        return Fail(Error);
      }
      if !frame.checksum {
        MovesOn(env, from, [], [], from, [], START, []);
        dStage, st := GetHeader, START;
        return Stop(0, 0, 0);
      }
      MovesOn(env, from, [], [], from, [], Collect(Suffix(frame), 4, []), []);
      if |src| - sp >= 4 {
        CollectMoves(env, Suffix(frame), 4, [], [], c[..4]);
        assert [] + c[..4] == c[..4] && src[sp..sp + 4] == c[..4];
        MovesCompose(env, from, [], [], [], Collect(Suffix(frame), 4, []), [],
                     c[..4], [], Collect(Suffix(frame), 4, c[..4]), []);
        t := CheckSuffix(src[sp..sp + 4], from, c, 4);
      } else {
        tmpIn, dStage, st := [], StoreSuffix, Collect(Suffix(frame), 4, []);
        t := Go(0, 0);
      }
    }

    method StoreSuffixTurn(src: seq<byte>, sp: nat) returns (t: Turn)
      requires Inv() && sp <= |src| && dStage == StoreSuffix
      modifies this
      ensures !t.Go? && Did(t, old(st), [], src[sp..], [])
      ensures t.Stop? ==> sp + t.read == |src| || t.hint == 0
      ensures t.Stop? ==> dStage != FlushOut
    {
      hide Run, Settle, Moves, Remaining;
      ghost var from, c := st, src[sp..];
      var sizeToCopy := Min(4 - |tmpIn|, |src| - sp);
      CollectMoves(env, Suffix(frame), 4, tmpIn, [], c[..sizeToCopy]);
      assert src[sp..sp + sizeToCopy] == c[..sizeToCopy];
      tmpIn := tmpIn + src[sp..sp + sizeToCopy];
      st := Collect(Suffix(frame), 4, tmpIn);
      if |tmpIn| < 4 {
        return Stop(sizeToCopy, 0, 4 - |tmpIn|);
      }
      t := CheckSuffix(tmpIn, from, c, sizeToCopy);
    }

    /** Compare the checksum `b` with that of the content. */
    method CheckSuffix(b: seq<byte>, ghost from: St, ghost c: seq<byte>, read: nat) returns (t: Turn)
      requires Sane(env) && FrameInv() && InFrame() && frame.checksum && frameRemainingSize == 0
      requires waiting == [] && |b| == 4 && read <= |c|
      requires Moves(env, from, [], c[..read], [], Collect(Suffix(frame), 4, b), [])
      modifies this
      ensures !t.Go? && Did(t, from, [], c, [])
      ensures t.Stop? ==> t.hint == 0
      ensures t.Stop? ==> dStage != FlushOut
    {
      hide Run, Settle, Moves, Remaining, ReadLE32;
      SuffixSettles(env, frame, b);
      if ReadLE32(b) != env.xxh(xxh) {
        DiesEarly(env, from, [], c, read, [], Collect(Suffix(frame), 4, b), []);
        return Fail(Error);
      }
      MovesOn(env, from, [], c[..read], Collect(Suffix(frame), 4, b), [], START, []);
      dStage, st := GetHeader, START;
      t := Stop(read, 0, 0);
    }

    /** A header has been begun, or is about to be. */
    predicate AtHeader()
      reads this
    {
      dStage.GetHeader? || dStage.StoreHeader?
    }

    /** The stages that deliver bytes. */
    predicate Delivers()
      reads this
    {
      dStage.CopyDirect? || dStage.DecodeIntoDst? || dStage.DecodeIntoTmp? || dStage.FlushOut?
    }

    /** One turn of the loop in a stage that only reads. */
    method ReadTurn(src: seq<byte>, sp: nat, room: nat) returns (t: Turn)
      requires Inv() && sp <= |src| && !Delivers()
      requires dStage == GetSFrameSize ==> |src| - sp >= 4
      modifies this
      ensures old(waiting) == []
      ensures if old(dStage) == DecodeCBlock then
                && t == Go(0, 0) && Inv() && Came(old(st), [], [], []) && st != START
                && (dStage == DecodeIntoTmp || (dStage == DecodeIntoDst && frame.maxBlockSize <= room))
              else Did(t, old(st), [], src[sp..], [])
      ensures t.Go? ==> t.read > 0 || Rank(dStage) < Rank(old(dStage))
      ensures t.Stop? ==> sp + t.read == |src| || t.hint == 0 || room == 0
      ensures t.Stop? ==> dStage != FlushOut
      ensures old(AtHeader()) ==> t.Fail? || t.read > 0 || (sp == |src| && t.Stop? && t.hint > 0)
    {
      hide Run, Settle, Moves, DidMove, Dies, Came;
      match dStage
      case GetHeader => t := GetHeaderTurn(src, sp);
      case StoreHeader => t := StoreHeaderTurn(src, sp);
      case GetSFrameSize => t := SkipSizeTurn(src, sp);
      case StoreSFrameSize => t := SkipSizeTurn(src, sp);
      case SkipSkippable => t := SkipTurn(src, sp);
      case GetCBlockSize => t := BlockHeadTurn(src, sp, room == 0);
      case StoreCBlockSize => t := BlockHeadTurn(src, sp, room == 0);
      case GetCBlock => t := GetCBlockTurn(src, sp);
      case StoreCBlock => t := StoreCBlockTurn(src, sp);
      case DecodeCBlock => t := DecodeCBlockTurn(room);
      case GetSuffix => t := GetSuffixTurn(src, sp);
      case StoreSuffix => t := StoreSuffixTurn(src, sp);
    }

    /** One turn of the loop in a stage that delivers bytes. */
    method WriteTurn(src: seq<byte>, sp: nat, dst: array<byte>, dp: nat, dstEnd: nat) returns (t: Turn)
      requires Inv() && sp <= |src| && dp <= dstEnd <= dst.Length && Delivers()
      requires dStage == DecodeIntoDst ==> frame.maxBlockSize <= dstEnd - dp
      modifies this, dst
      ensures !t.Fail? ==> dp + t.wrote <= dstEnd
      ensures Did(t, old(st), old(waiting), src[sp..], if t.Fail? then [] else dst[dp..dp + t.wrote])
      ensures t.Go? ==> t.read > 0 || t.wrote > 0 || Rank(dStage) < Rank(old(dStage))
      ensures !t.Fail? ==> forall k :: 0 <= k < dst.Length && !(dp <= k < dp + t.wrote) ==> dst[k] == old(dst[k])
      ensures t.Stop? ==> sp + t.read == |src| || dp + t.wrote == dstEnd
      ensures t.Stop? && dStage == FlushOut ==> dp + t.wrote == dstEnd
    {
      hide Run, Settle, Moves;
      ghost var from, c := st, src[sp..];
      ghost var none: seq<byte> := [];
      assert none[..0] == none && c[..0] == none;
      match dStage
      case CopyDirect => t := CopyDirectTurn(src, sp, dst, dp, dstEnd);
      case DecodeIntoDst =>
        t := DecodeIntoDstTurn(dst, dp, dstEnd);
        if t.Fail? { DeadAtOnce(from, c); }
      case DecodeIntoTmp =>
        t := DecodeIntoTmpTurn();
        if t.Fail? { DeadAtOnce(from, c); } else { assert dst[dp..dp] == none; }
      case FlushOut => t := FlushTurn(dst, dp, dstEnd);
    }

    lemma DeadAtOnce(from: St, c: seq<byte>)
      requires Settle(env, from).st == Bad
      ensures Dies(from, c, Error)
    {
      hide Settle, Run;
      DeadIsFinal(env, Settle(env, from), c);
    }

    /** One turn of the loop, whatever the stage. */
    method OneTurn(src: seq<byte>, sp: nat, dst: array<byte>, dp: nat, dstEnd: nat) returns (t: Turn)
      requires Inv() && sp <= |src| && dp <= dstEnd <= dst.Length && Ready(|src| - sp, dstEnd - dp)
      modifies this, dst
      ensures t.Fail? ==> Dies(old(st), src[sp..], t.r)
      ensures !t.Fail? ==>
                && sp + t.read <= |src| && dp + t.wrote <= dstEnd && Inv()
                && Came(old(st), old(waiting), src[sp..sp + t.read], dst[dp..dp + t.wrote])
                && (st == START ==> dStage == GetHeader || (old(st) == START && t.read == 0))
      ensures t.Go? ==>
                && dStage != GetHeader && Ready(|src| - sp - t.read, dstEnd - dp - t.wrote)
                && (t.read > 0 || t.wrote > 0 || Rank(dStage) < Rank(old(dStage)))
      ensures t.Stop? ==>
                && AtRest() && (t.hint == 0 <==> dStage == GetHeader) && (t.hint == 0 || t.hint == Wanted(st))
                && (sp + t.read == |src| || dp + t.wrote == dstEnd || t.hint == 0)
      ensures !t.Fail? ==> forall k :: 0 <= k < dst.Length && !(dp <= k < dp + t.wrote) ==> dst[k] == old(dst[k])
      ensures t.Stop? && dStage == FlushOut ==> dp + t.wrote == dstEnd
      ensures old(AtHeader()) ==> t.Fail? || t.read > 0 || (sp == |src| && t.Stop? && t.hint > 0)
    {
      hide Run, Settle, Moves, Came, Inv;
      if Delivers() {
        t := WriteTurn(src, sp, dst, dp, dstEnd);
      } else {
        ghost var decoding := dStage == DecodeCBlock;
        t := ReadTurn(src, sp, dstEnd - dp);
        if !t.Fail? {
          assert dst[dp..dp + t.wrote] == [];
          assert decoding ==> src[sp..sp + t.read] == [];
        }
      }
      if !t.Fail? {
        assert src[sp..][..t.read] == src[sp..sp + t.read];
      }
    }

    /** The stages that need something of the buffers find it there. */
    predicate Ready(avail: nat, room: nat)
      reads this
    {
      && (dStage == GetSFrameSize ==> avail >= 4)
      && (dStage == DecodeIntoDst ==> frame.maxBlockSize <= room)
    }

    /** LizardF_decompress. `srcAt` is the address of the source: a call that left some
        of its source unread must be followed by one that starts there. Whatever slice
        of the stream the source is and however little room there is, the machine of
        the format goes exactly as far as the bytes read take it, and the bytes written
        are what it put out, in order. A call ends only when the source is exhausted,
        the destination is full, or a frame is complete. */
    method Decompress(src: seq<byte>, srcAt: nat, dst: array<byte>, dstStart: nat, dstSize: nat)
      returns (r: Result, read: nat, wrote: nat)
      requires Valid() && dstStart + dstSize <= dst.Length
      modifies this, dst
      ensures old(srcExpect) == None || old(srcExpect) == Some(srcAt) ==>
                if r.Hint? then
                  && Valid() && read <= |src| && wrote <= dstSize
                  && Came(old(st), old(waiting), src[..read], dst[dstStart..dstStart + wrote])
                  && srcExpect == (if read < |src| then Some(srcAt + read) else None)
                  && (r.size == 0 ==> st == START && waiting == [])
                  && r.size == (if read > 0 && st == START then 0 else Wanted(st))
                  && (read == |src| || wrote == dstSize || r.size == 0)
                  && (old(st) == START ==> read > 0 || src == [])
                  && (waiting == [] || wrote == dstSize) && Settle(env, st) == Res(st, [])
                  && forall k :: 0 <= k < dst.Length && !(dstStart <= k < dstStart + wrote) ==> dst[k] == old(dst[k])
                else read == 0 && wrote == 0 && Dies(old(st), src, r)
      ensures !(old(srcExpect) == None || old(srcExpect) == Some(srcAt)) ==>
                && r == Error && read == 0 && wrote == 0 && unchanged(this) && unchanged(dst)
    {
      hide Run, Settle, Moves, Valid, Dies;
      if srcExpect.Some? && srcExpect.value != srcAt {
        return Error, 0, 0;
      }
      r, read, wrote := TakeTurns(src, dst, dstStart, dstSize);
      if r.Hint? {
        Expect(if read < |src| then Some(srcAt + read) else None);
      }
    }

    /** The loop over the stages. */
    method TakeTurns(src: seq<byte>, dst: array<byte>, dstStart: nat, dstSize: nat) returns (r: Result, read: nat, wrote: nat)
      requires Valid() && dstStart + dstSize <= dst.Length
      modifies this, dst
      ensures r.Hint? ==>
                && Valid() && read <= |src| && wrote <= dstSize
                && Came(old(st), old(waiting), src[..read], dst[dstStart..dstStart + wrote])
                && (r.size == 0 ==> st == START && waiting == [])
                && r.size == (if read > 0 && st == START then 0 else Wanted(st))
                && (read == |src| || wrote == dstSize || r.size == 0)
                && (old(st) == START ==> read > 0 || src == [])
                && (waiting == [] || wrote == dstSize) && Settle(env, st) == Res(st, [])
      ensures r.Hint? ==> forall k :: 0 <= k < dst.Length && !(dstStart <= k < dstStart + wrote) ==> dst[k] == old(dst[k])
      ensures !r.Hint? ==> read == 0 && wrote == 0 && Dies(old(st), src, r)
    {
      hide Run, Settle, Inv, Moves, Ready, Valid, AtRest, Rank, Wanted;
      ghost var from, p := st, waiting;
      var sp: nat, dp: nat, dstEnd := 0, dstStart, dstStart + dstSize;
      var again, hint := true, 1;
      MovesNowhere(env, st, waiting);
      assert src[..0] == [] && dst[dstStart..dstStart] == [];
      ValidIsReady(|src|, dstSize);
      RestIsSettled();
      while again
        invariant sp <= |src| && dstStart <= dp <= dstEnd && Inv()
        invariant Came(from, p, src[..sp], dst[dstStart..dp])
        invariant again ==> Ready(|src| - sp, dstEnd - dp)
        invariant st == START ==> dStage == GetHeader || sp == 0
        invariant again ==> dStage != GetHeader || sp == 0
        invariant !again ==> AtRest() && (hint == 0 <==> dStage == GetHeader) && (hint == 0 || hint == Wanted(st))
        invariant !again ==> sp == |src| || dp == dstEnd || hint == 0
        invariant !again && dStage == FlushOut ==> dp == dstEnd
        invariant from == START ==> sp > 0 || (again && AtHeader()) || (!again && src == [] && hint > 0)
        invariant forall k :: 0 <= k < dst.Length && !(dstStart <= k < dp) ==> dst[k] == old(dst[k])
        decreases again, |src| - sp, dstEnd - dp, Rank(dStage)
      {
        ghost var st1, w1, d := st, waiting, dst[..];
        var t := OneTurn(src, sp, dst, dp, dstEnd);
        if t.Fail? {
          MovesThenRuns(env, from, p, src, sp, d[dstStart..dp], st1, w1);
          return t.r, 0, 0;
        }
        CameOn(from, p, src, sp, t.read, d, dst[..], dstStart, dp, t.wrote, st1, w1);
        sp, dp := sp + t.read, dp + t.wrote;
        if t.Stop? {
          again, hint := false, t.hint;
        }
      }
      IdleMeans();
      RestIsSettled();
      if sp == 0 {
        assert src[..0] == [];
        StaysPut(env, from, p, dst[dstStart..dp], st, waiting);
      }
      r, read, wrote := Hint(hint), sp, dp - dstStart;
    }

    /** The machine had come from `from` to `st1`, and goes on to where it is. */
    lemma CameOn(from: St, p: seq<byte>, src: seq<byte>, sp: nat, read: nat, d: seq<byte>, e: seq<byte>,
                 lo: nat, dp: nat, wrote: nat, st1: St, w1: seq<byte>)
      requires sp + read <= |src| && lo <= dp && dp + wrote <= |e| == |d|
      requires Moves(env, from, p, src[..sp], d[lo..dp], st1, w1)
      requires Came(st1, w1, src[sp..sp + read], e[dp..dp + wrote])
      requires forall k :: lo <= k < dp ==> e[k] == d[k]
      ensures Came(from, p, src[..sp + read], e[lo..dp + wrote])
    {
      hide Moves;
      assert d[lo..dp] == e[lo..dp];
      assert src[..sp] + src[sp..sp + read] == src[..sp + read];
      SliceConcat(e, lo, dp, dp + wrote);
      MovesCompose(env, from, p, src[..sp], e[lo..dp], st1, w1, src[sp..sp + read], e[dp..dp + wrote], st, waiting);
    }

    /** Note where the next call has to start, if that matters. */
    method Expect(next: Option<nat>)
      requires Valid()
      modifies this`srcExpect
      ensures Valid() && srcExpect == next
    {
      srcExpect := next;
    }

    lemma ValidIsReady(avail: nat, room: nat)
      requires Valid()
      ensures Inv() && AtRest() && Ready(avail, room) && (st == START ==> AtHeader())
    {
    }

    /** Between calls the machine waits for a byte. */
    lemma RestIsSettled()
      requires Inv() && AtRest()
      ensures Valid() && Settle(env, st) == Res(st, [])
    {
    }

    lemma IdleMeans()
      requires Inv()
      ensures dStage == GetHeader ==> st == START && waiting == []
      ensures dStage != FlushOut ==> waiting == []
      ensures st == START ==> dStage == GetHeader || dStage == StoreHeader
    {
    }

    static function Min(a: nat, b: nat): nat {
      if a < b then a else b
    }
  }
}
