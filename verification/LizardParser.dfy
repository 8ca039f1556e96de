/** The parsers fast and fastBig (lizard_parser_fast.h:41-196, lizard_parser_fastbig.h:35-175):
    they find matches through a hash table that is never initialised. */
module LizardParser {
  import opened Bytes
  import opened LittleEndian
  import opened LzCopy
  import opened LizardCodes
  import opened LizardEncoder
  import opened LizardGreedy

  // ----- The length of a match -----

  /** How many bytes two words have in common from the lowest on. */
  function CommonBytes(a: seq<byte>, b: seq<byte>): (n: nat)
    requires |a| == |b|
    ensures n <= |a| && a[..n] == b[..n] && (n < |a| ==> a[n] != b[n])
  {
    if a == [] || a[0] != b[0] then 0 else
      var n := CommonBytes(a[1..], b[1..]);
      assert a[..n + 1] == [a[0]] + a[1..][..n] && b[..n + 1] == [b[0]] + b[1..][..n];
      n + 1
  }

  /** The bytes from `a` and from `b` on are the same. */
  ghost predicate Same(s: seq<byte>, a: nat, b: nat, len: nat) {
    b <= a && a + len <= |s| && s[a..a + len] == s[b..b + len]
  }

  lemma SameGrows(s: seq<byte>, a: nat, b: nat, len: nat, more: nat)
    requires Same(s, a, b, len) && a + len + more <= |s|
    ensures Same(s, a, b, len + more) <==> s[a + len..a + len + more] == s[b + len..b + len + more]
  {
    SliceConcat(s, a, a + len, a + len + more);
    SliceConcat(s, b, b + len, b + len + more);
    SliceInSlice(s, a, a + len + more, len, len + more);
    SliceInSlice(s, b, b + len + more, len, len + more);
  }

  lemma SameNothing(s: seq<byte>, a: nat, b: nat)
    requires b <= a <= |s|
    ensures Same(s, a, b, 0)
  {
  }

  lemma SameByte(s: seq<byte>, a: nat, b: nat, len: nat)
    requires Same(s, a, b, len) && a + len < |s|
    ensures Same(s, a, b, len + 1) <==> s[a + len] == s[b + len]
  {
    SameGrows(s, a, b, len, 1);
    assert s[a + len..a + len + 1] == [s[a + len]] && s[b + len..b + len + 1] == [s[b + len]];
  }

  lemma WordDiffers(s: seq<byte>, a: nat, b: nat, n: nat, c: nat)
    requires b <= a && Same(s, a, b, n) && a + n + 8 <= |s|
    requires s[a + n..a + n + 8] != s[b + n..b + n + 8]
    requires c == CommonBytes(s[a + n..a + n + 8], s[b + n..b + n + 8])
    ensures c < 8 && Same(s, a, b, n + c) && s[a + n + c] != s[b + n + c]
  {
    hide Same, CommonBytes;
    var x, y := s[a + n..a + n + 8], s[b + n..b + n + 8];
    assert x[..8] == x && y[..8] == y;
    SliceInSlice(s, a + n, a + n + 8, 0, c);
    SliceInSlice(s, b + n, b + n + 8, 0, c);
    SameGrows(s, a, b, n, c);
  }

  /** `len` is the length of the longest common prefix. */
  ghost predicate Longest(s: seq<byte>, a: nat, b: nat, len: nat, limit: nat)
    requires limit <= |s|
  {
    a + len <= limit && Same(s, a, b, len) && (a + len < limit ==> s[a + len] != s[b + len])
  }

  lemma {:induction false} LongestAgrees(s: seq<byte>, a: nat, b: nat, len: nat, limit: nat)
    requires b <= a <= limit <= |s| && Longest(s, a, b, len, limit)
    ensures len == Agree(s, a, b, limit)
    decreases len
  {
    if len > 0 {
      SliceAt(s, a, a + len, a);
      SliceAt(s, b, b + len, b);
      SliceInSlice(s, a, a + len, 1, len);
      SliceInSlice(s, b, b + len, 1, len);
      LongestAgrees(s, a + 1, b + 1, len - 1, limit);
    }
  }

  /** Lizard_count: the longest common prefix, eight bytes at a time and then four, two
      and one. */
  method Count(src: array<byte>, pIn: nat, pMatch: nat, limit: nat) returns (n: nat)
    requires pMatch <= pIn <= limit <= src.Length
    ensures Longest(src[..], pIn, pMatch, n, limit)
  {
    hide Same, CommonBytes;
    ghost var s := src[..];
    n := 0;
    SameNothing(s, pIn, pMatch);
    while pIn + n < limit - 7
      invariant pIn + n <= limit && Same(s, pIn, pMatch, n)
    {
      var a, b := src[pIn + n..pIn + n + 8], src[pMatch + n..pMatch + n + 8];
      assert a == s[pIn + n..pIn + n + 8] && b == s[pMatch + n..pMatch + n + 8];
      if a != b {
        var c := CommonBytes(a, b);
        WordDiffers(s, pIn, pMatch, n, c);
        n := n + c;
        return;
      }
      SameGrows(s, pIn, pMatch, n, 8);
      n := n + 8;
    }
    n := CountRest(src, pIn, pMatch, limit, n);
  }

  /** One comparison of `w` bytes, if there are as many. */
  method CountOnce(src: array<byte>, pIn: nat, pMatch: nat, limit: nat, so: nat, w: nat) returns (n: nat)
    requires 1 <= w && pMatch <= pIn <= limit <= src.Length && pIn + so <= limit
    requires Same(src[..], pIn, pMatch, so)
    ensures n == so || n == so + w
    ensures pIn + n <= limit && Same(src[..], pIn, pMatch, n)
    ensures n == so ==> pIn + so + w > limit || !Same(src[..], pIn, pMatch, so + w)
  {
    hide Same;
    n := so;
    if pIn + n < limit - (w - 1) {
      SameGrows(src[..], pIn, pMatch, so, w);
      SliceOfSlice(src[..], pIn + n, pIn + n + w, src.Length);
      SliceOfSlice(src[..], pMatch + n, pMatch + n + w, src.Length);
      if src[pIn + n..pIn + n + w] == src[pMatch + n..pMatch + n + w] {
        n := n + w;
      }
    }
  }

  method CountRest(src: array<byte>, pIn: nat, pMatch: nat, limit: nat, so: nat) returns (n: nat)
    requires pMatch <= pIn <= limit <= src.Length && pIn + so <= limit < pIn + so + 8
    requires Same(src[..], pIn, pMatch, so)
    ensures Longest(src[..], pIn, pMatch, n, limit)
  {
    hide Same;
    n := CountOnce(src, pIn, pMatch, limit, so, 4);
    n := CountOnce(src, pIn, pMatch, limit, n, 2);
    n := CountOnce(src, pIn, pMatch, limit, n, 1);
    if pIn + n < limit {
      SameByte(src[..], pIn, pMatch, n);
    }
  }

  // ----- What has been parsed -----

  /** The sequences written so far stand for the source up to `at`. */
  ghost predicate Parsed(kind: Codewords, p: Prog, base: nat, s: seq<byte>, at: nat) {
    && base <= |s| && Legal(kind, p, base)
    && base + Size(p) == at <= |s|
    && Expand(kind, p, s[..base]) == s[..at]
  }

  lemma NothingParsed(kind: Codewords, s: seq<byte>, base: nat)
    requires base <= |s|
    ensures Parsed(kind, Start, base, s, base)
  {
  }

  /** A match that a parser may take at `ip`: long enough and near enough for the codewords. */
  ghost predicate Takes(kind: Codewords, s: seq<byte>, ip: nat, at: nat, len: nat) {
    && at + FAST_MIN_OFFSET <= ip <= at + MaxDistance(kind)
    && MINMATCH <= len <= BLOCK_SIZE
    && (kind.LIZv1? && ip - at >= MAX_16BIT_OFFSET ==> len >= MM_LONGOFF)
    && Same(s, ip, at, len)
  }

  lemma TakenIsLegal(kind: Codewords, p: Prog, base: nat, s: seq<byte>, anchor: nat, ip: nat, at: nat, len: nat)
    requires Parsed(kind, p, base, s, anchor) && anchor <= ip <= anchor + BLOCK_SIZE && Takes(kind, s, ip, at, len)
    ensures ip <= |s| && LegalSequence(kind, Sequence(s[anchor..ip], ip - at, len), base + Size(p), Last(p))
  {
  }

  lemma TakenParses(kind: Codewords, p: Prog, base: nat, s: seq<byte>, anchor: nat, ip: nat, at: nat, len: nat)
    requires Parsed(kind, p, base, s, anchor) && anchor <= ip <= anchor + BLOCK_SIZE && Takes(kind, s, ip, at, len)
    ensures ip <= |s| && Parsed(kind, Then(p, Sequence(s[anchor..ip], ip - at, len)), base, s, ip + len)
  {
    hide CopyMatch;
    TakenIsLegal(kind, p, base, s, anchor, ip, at, len);
    SliceConcat(s, 0, anchor, ip);
    assert s[..anchor] == s[0..anchor] && s[..ip] == s[0..ip];
    forall k | ip <= k < ip + len
      ensures s[k] == s[k - (ip - at)]
    {
      assert s[ip..ip + len][k - ip] == s[at..at + len][k - ip];
    }
    MatchReproduces(s, ip, ip - at, len);
    var i := Sequence(s[anchor..ip], ip - at, len);
    assert Distance(i, Last(p)) == ip - at;
    assert Apply(s[..anchor], Last(p), i) == s[..ip + len];
  }

  /** The match may begin earlier. */
  lemma TakenBack(kind: Codewords, s: seq<byte>, ip: nat, at: nat, len: nat)
    requires 1 <= at <= ip && Same(s, ip, at, len) && ip + len <= |s| && s[ip - 1] == s[at - 1]
    ensures Same(s, ip - 1, at - 1, len + 1)
  {
    assert s[ip - 1..ip + len] == [s[ip - 1]] + s[ip..ip + len];
    assert s[at - 1..at + len] == [s[at - 1]] + s[at..at + len];
  }

  // ----- The parsers -----

  class Parser {
    const kind: Codewords
    const src: array<byte>
    const iend: nat
    const hashTable: array<u32>

    /** The table is taken as it is. */
    constructor (kind: Codewords, src: array<byte>, iend: nat, hashTable: array<u32>)
      requires iend <= src.Length && iend + DICT_SIZE < 0x1_0000_0000 && hashTable.Length == TableSize(kind)
      ensures Valid() && this.kind == kind && this.src == src && this.iend == iend && this.hashTable == hashTable
    {
      this.kind, this.src, this.iend, this.hashTable := kind, src, iend, hashTable;
    }

    ghost predicate Valid() {
      iend <= src.Length && iend + DICT_SIZE < 0x1_0000_0000 && hashTable.Length == TableSize(kind)
    }

    /** What the parser is given, as a value. */
    ghost function In(lowLimit: nat): Input
      requires lowLimit >= DICT_SIZE
      reads src
    {
      Input(kind, src[..], lowLimit - DICT_SIZE, iend)
    }

    lemma HashIs(p: nat, lowLimit: nat)
      requires Valid() && p + 8 <= iend && lowLimit >= DICT_SIZE
      ensures Good(In(lowLimit)) && HashPosition(p) == HashAt(In(lowLimit), p)
    {
      assert src[..][p..p + 8] == src[p..p + 8];
    }

    function HashPosition(p: nat): (h: nat)
      requires Valid() && p + 8 <= iend
      reads src
      ensures h < hashTable.Length
    {
      Hash(kind, src[p..p + 8])
    }

    /** A position the table gave is believed exactly if it lies in the window, at least eight
        bytes back, with the same four bytes; the length is what follows those four. */
    method Check(ip: nat, matchIndex: u32, lowLimit: nat) returns (ok: bool, at: nat, matchLength: nat)
      requires Valid() && ip + MFLIMIT <= iend && lowLimit >= DICT_SIZE
      ensures ok <==> Believed(In(lowLimit), ip, matchIndex)
      ensures ok ==> at == matchIndex - DICT_SIZE
                     && matchLength == Agree(src[..], ip + MINMATCH, at + MINMATCH, iend - LASTLITERALS)
      ensures ok ==> matchLength + MINMATCH + ip <= iend - LASTLITERALS
                     && at + FAST_MIN_OFFSET <= ip <= at + MaxDistance(kind) && Same(src[..], ip, at, matchLength + MINMATCH)
    {
      hide Same, Agree;
      ok, at, matchLength := false, 0, 0;
      if matchIndex < lowLimit || matchIndex >= ip + DICT_SIZE || matchIndex + MaxDistance(kind) < ip + DICT_SIZE {
        return;
      }
      at := matchIndex - DICT_SIZE;
      assert src[..][at..at + 4] == src[at..at + 4] && src[..][ip..ip + 4] == src[ip..ip + 4];
      if ip - at >= FAST_MIN_OFFSET && src[at..at + 4] == src[ip..ip + 4] {
        matchLength := CountOn(ip, at);
        ok := true;
      }
    }

    /** How much more than the first four bytes of a match agrees. */
    method CountOn(ip: nat, at: nat) returns (matchLength: nat)
      requires Valid() && ip + MFLIMIT <= iend && at <= ip && src[..][ip..ip + 4] == src[..][at..at + 4]
      ensures matchLength == Agree(src[..], ip + MINMATCH, at + MINMATCH, iend - LASTLITERALS)
      ensures Same(src[..], ip, at, matchLength + MINMATCH)
    {
      hide Same, Agree;
      matchLength := Count(src, ip + MINMATCH, at + MINMATCH, iend - LASTLITERALS);
      FourAndMore(src[..], ip, at, matchLength);
      LongestAgrees(src[..], ip + MINMATCH, at + MINMATCH, matchLength, iend - LASTLITERALS);
    }

    /** What the table gave, extended backwards if it is believed, and taken if it is long
        enough. */
    method Try(start: nat, matchIndex: u32, anchor: nat, lowLimit: nat) returns (found: bool, ip: nat, at: nat, matchLength: nat)
      requires Valid() && anchor <= start && lowLimit >= DICT_SIZE && start + MFLIMIT <= iend <= anchor + BLOCK_SIZE
      ensures Good(In(lowLimit))
      ensures Probe(In(lowLimit), anchor, start, matchIndex) == if found then Match(ip, at, matchLength + MINMATCH) else NoMatch
      ensures found ==> anchor <= ip && start < ip + matchLength + MINMATCH && ip + matchLength + MINMATCH + LASTLITERALS <= iend
                        && Takes(kind, src[..], ip, at, matchLength + MINMATCH) && at + FAST_MIN_OFFSET <= ip
    {
      hide Same, Believed, Probe, Agree, AgreeBack;
      ghost var b := In(lowLimit);
      found, at, matchLength := Check(start, matchIndex, lowLimit);
      ip := start;
      if found {
        var back := Backwards(start, at, anchor, matchLength + MINMATCH);
        ProbeIs(b, anchor, start, matchIndex, back, matchLength);
        matchLength := matchLength + back;
        ip, at := start - back, at - back;
        found := LongEnough(kind, matchLength + MINMATCH, ip - at);
      } else {
        NotBelieved(b, anchor, start, matchIndex);
      }
    }

    /** The search: ever longer steps ahead until a match is found, which is then extended
        backwards. */
    method Search(start: nat, h0: nat, anchor: nat, lowLimit: nat) returns (found: bool, ip: nat, at: nat, matchLength: nat)
      requires Valid() && anchor <= start && lowLimit >= DICT_SIZE && start + MFLIMIT <= iend + 1 && h0 < hashTable.Length
      requires iend <= anchor + BLOCK_SIZE && h0 == HashPosition(start)
      modifies hashTable
      ensures Good(In(lowLimit))
      ensures var f := LizardGreedy.Search(In(lowLimit), anchor, start, 1, SKIP_TRIGGER_UNIT, old(hashTable[..]));
              && hashTable[..] == f.table && f.m == if found then Match(ip, at, matchLength + MINMATCH) else NoMatch
      ensures if found then start < ip + matchLength + MINMATCH else start <= ip
      ensures found ==> at + FAST_MIN_OFFSET <= ip
      ensures found ==> anchor <= ip && ip + matchLength + MINMATCH + LASTLITERALS <= iend
                        && Takes(kind, src[..], ip, at, matchLength + MINMATCH)
    {
      hide Same, Probe, Takes, HashAt, TableSize, LizardGreedy.Search, Believed, Agree, AgreeBack, MaxDistance, LongEnough;
      ghost var b, t0 := In(lowLimit), hashTable[..];
      ghost var all := LizardGreedy.Search(b, anchor, start, 1, SKIP_TRIGGER_UNIT, t0);
      var forwardIp: nat, step: nat, searchMatchNb: nat, forwardH: nat := start, 1, SKIP_TRIGGER_UNIT, h0;
      ip, at, matchLength := start, 0, 0;
      while true
        invariant anchor <= forwardIp && step >= 1 && searchMatchNb >= SKIP_TRIGGER_UNIT
        invariant start <= forwardIp && forwardIp + MFLIMIT <= iend + 1 && forwardH == HashPosition(forwardIp)
        invariant In(lowLimit) == b && Good(b)
        invariant all == LizardGreedy.Search(b, anchor, forwardIp, step, searchMatchNb, hashTable[..])
        decreases iend - forwardIp
      {
        var h := forwardH;
        ghost var t := hashTable[..];
        ip := forwardIp;
        SearchStep(b, anchor, ip, step, searchMatchNb, t);
        HashIs(ip, lowLimit);
        forwardIp := forwardIp + step;
        step := searchMatchNb / SKIP_TRIGGER_UNIT;
        searchMatchNb := searchMatchNb + 1;
        if forwardIp as int > iend - MFLIMIT {
          return false, ip, at, matchLength;
        }
        var matchIndex := hashTable[h];
        forwardH := HashPosition(forwardIp);
        hashTable[h] := ip + DICT_SIZE;
        assert hashTable[..] == Enter(b, t, ip);
        found, ip, at, matchLength := Try(ip, matchIndex, anchor, lowLimit);
        if found {
          return;
        }
      }
    }

    method Backwards(ip: nat, at: nat, anchor: nat, ghost len: nat) returns (back: nat)
      requires Valid() && anchor <= ip && at <= ip && ip + len <= src.Length && Same(src[..], ip, at, len)
      ensures back == AgreeBack(src[..], ip, at, anchor)
      ensures back <= at && back <= ip - anchor && Same(src[..], ip - back, at - back, len + back)
    {
      hide Same, AgreeBack;
      ghost var s := src[..];
      back := 0;
      while ip - back > anchor && at - back > 0 && src[ip - back - 1] == src[at - back - 1]
        invariant back <= at && back <= ip - anchor
        invariant AgreeBack(s, ip, at, anchor) == back + AgreeBack(s, ip - back, at - back, anchor)
        invariant Same(s, ip - back, at - back, len + back)
      {
        TakenBack(kind, s, ip - back, at - back, len + back);
        BackStep(s, ip - back, at - back, anchor);
        back := back + 1;
      }
      BackStep(s, ip - back, at - back, anchor);
    }

    /** The same right behind a match, where there is nothing to go back to. */
    method TryNext(ip: nat, lowLimit: nat) returns (found: bool, at: nat, matchLength: nat)
      requires Valid() && lowLimit >= DICT_SIZE && 2 <= ip && ip + MFLIMIT <= iend <= ip + BLOCK_SIZE
      modifies hashTable
      ensures Good(In(lowLimit))
      ensures var b := In(lowLimit);
              var t := Enter(b, old(hashTable[..]), ip - 2);
              && hashTable[..] == Enter(b, t, ip)
              && Probe(b, ip, ip, t[HashAt(b, ip)]) == if found then Match(ip, at, matchLength + MINMATCH) else NoMatch
      ensures found ==> at + FAST_MIN_OFFSET <= ip && ip + matchLength + MINMATCH + LASTLITERALS <= iend
                        && Takes(kind, src[..], ip, at, matchLength + MINMATCH)
    {
      hide Same, Believed, Probe, Agree, AgreeBack, HashAt, TableSize;
      ghost var b, t := In(lowLimit), hashTable[..];
      HashIs(ip - 2, lowLimit);
      HashIs(ip, lowLimit);
      hashTable[HashPosition(ip - 2)] := ip - 2 + DICT_SIZE;
      var h := HashPosition(ip);
      var matchIndex := hashTable[h];
      assert hashTable[..] == Enter(b, t, ip - 2);
      hashTable[h] := ip + DICT_SIZE;
      assert hashTable[..] == Enter(b, Enter(b, t, ip - 2), ip);
      found, at, matchLength := Check(ip, matchIndex, lowLimit);
      if found {
        NoBack(b.s, ip, at);
        ProbeIs(b, ip, ip, matchIndex, 0, matchLength);
        found := LongEnough(kind, matchLength + MINMATCH, ip - at);
      } else {
        NotBelieved(b, ip, ip, matchIndex);
      }
    }

    method Encode(ctx: CStream, ip: nat, anchor: nat, matchLength: nat, at: nat) returns (ip': nat, anchor': nat)
      requires Valid() && ctx.Valid() && ctx.kind == kind && anchor <= ip <= anchor + BLOCK_SIZE
      requires Parsed(kind, ctx.prog, ctx.base, src[..], anchor) && Takes(kind, src[..], ip, at, matchLength)
      modifies ctx
      ensures ctx.Valid() && ctx.base == old(ctx.base)
      ensures ctx.prog == Then(old(ctx.prog), Sequence(old(src[..][anchor..ip]), ip - at, matchLength))
      ensures ip' == anchor' == ip + matchLength && Parsed(kind, ctx.prog, ctx.base, src[..], anchor')
    {
      hide Parsed, LegalSequence;
      TakenIsLegal(kind, ctx.prog, ctx.base, src[..], anchor, ip, at, matchLength);
      TakenParses(kind, ctx.prog, ctx.base, src[..], anchor, ip, at, matchLength);
      assert src[..][anchor..ip] == src[anchor..ip];
      if kind.LZ4? {
        ip', anchor' := ctx.EncodeSequenceLZ4(src, ip, anchor, matchLength, at);
      } else {
        ip', anchor' := ctx.EncodeSequenceLIZv1(src, ip, anchor, matchLength, at);
      }
    }

    /** Sequences one right after the other, the first of which has been found. */
    method TakeMatches(ctx: CStream, start: nat, anchor0: nat, length0: nat, at0: nat, lowLimit: nat) returns (over: bool, ip: nat)
      requires Valid() && ctx.Valid() && ctx.kind == kind && anchor0 <= start && iend <= anchor0 + BLOCK_SIZE && lowLimit >= DICT_SIZE
      requires Parsed(kind, ctx.prog, ctx.base, src[..], anchor0)
      requires at0 + FAST_MIN_OFFSET <= start && start + length0 + MINMATCH + LASTLITERALS <= iend
      requires Takes(kind, src[..], start, at0, length0 + MINMATCH)
      modifies ctx, hashTable
      ensures ctx.Valid() && ctx.base == old(ctx.base) && !ctx.prog.Start?
      ensures start + length0 + MINMATCH <= ip && ip + LASTLITERALS <= iend && Parsed(kind, ctx.prog, ctx.base, src[..], ip)
      ensures !over ==> ip + MFLIMIT <= iend
      ensures Parse(ctx.prog, ip, hashTable[..], over)
           == Follow(In(lowLimit), anchor0, old(ctx.prog), Match(start, at0, length0 + MINMATCH), old(hashTable[..]))
    {
      hide Parsed, Same, Probe, HashAt, TableSize, Follow, Agree, Believed, Takes, Enter, CStream.Valid;
      ghost var b := In(lowLimit);
      ghost var all := Follow(b, anchor0, ctx.prog, Match(start, at0, length0 + MINMATCH), hashTable[..]);
      var anchor: nat, at: nat, matchLength: nat := anchor0, at0, length0;
      ip := start;
      var more := true;
      while more
        invariant ctx.Valid() && ctx.base == old(ctx.base) && (!more ==> !ctx.prog.Start? && ip == anchor)
        invariant anchor0 <= anchor <= ip && start <= ip
        invariant (more && ip == start && matchLength == length0) || start + length0 + MINMATCH <= ip
        invariant Parsed(kind, ctx.prog, ctx.base, src[..], anchor)
        invariant more ==> Takes(kind, src[..], ip, at, matchLength + MINMATCH) && ip + matchLength + MINMATCH + LASTLITERALS <= iend
        invariant !more ==> ip + MFLIMIT <= iend
        invariant In(lowLimit) == b && (more ==> at + FAST_MIN_OFFSET <= ip)
        invariant all == if more then Follow(b, anchor, ctx.prog, Match(ip, at, matchLength + MINMATCH), hashTable[..])
                         else Parse(ctx.prog, ip, hashTable[..], false)
        decreases iend - ip, more
      {
        ghost var t := hashTable[..];
        FollowStep(b, anchor, ctx.prog, Match(ip, at, matchLength + MINMATCH), t);
        ip, anchor := Encode(ctx, ip, anchor, matchLength + MINMATCH, at);
        if ip as int > iend - MFLIMIT {
          return true, ip;
        }
        more, at, matchLength := TryNext(ip, lowLimit);
      }
      over := false;
    }

    /** What holds between two rounds of the main loop. */
    ghost predicate Between(ctx: CStream, start: nat, ip: nat, last: nat, going: bool)
      reads this, ctx, src
    {
      && Valid() && ctx.Valid() && ctx.kind == kind && ctx.base == start && start <= last <= iend
      && Parsed(kind, ctx.prog, start, src[..], last)
      && (ctx.prog.Start? || last + LASTLITERALS <= iend)
      && (going ==> last <= ip && ip + MFLIMIT <= iend + 1)
    }

    lemma Begins(ctx: CStream, start: nat)
      requires Valid() && ctx.Valid() && ctx.kind == kind && ctx.base == start && ctx.prog.Start? && start <= iend
      ensures Between(ctx, start, iend, start, false)
      ensures iend - start >= MIN_LENGTH ==> Between(ctx, start, start + 1, start, true)
    {
      NothingParsed(kind, src[..], start);
    }

    lemma Ends(ctx: CStream, start: nat, ip: nat, last: nat)
      requires Between(ctx, start, ip, last, false)
      ensures ctx.Valid() && ctx.kind == kind && ctx.base == start && start <= last <= iend
      ensures Parsed(kind, ctx.prog, start, src[..], last) && (ctx.prog.Start? || last + LASTLITERALS <= iend)
    {
      hide CStream.Valid, Parsed;
    }

    /** One round: a search, and the matches it leads to. */
    method Round(ctx: CStream, ghost start: nat, ip: nat, last: nat, forwardH: nat, lowLimit: nat)
      returns (going: bool, ip': nat, last': nat)
      requires Between(ctx, start, ip, last, true) && forwardH == HashPosition(ip) && lowLimit >= DICT_SIZE && iend <= start + BLOCK_SIZE
      modifies ctx, hashTable
      ensures Good(In(lowLimit)) && Between(ctx, start, ip', last', going) && start <= last' <= ip' && ip <= ip'
      ensures going ==> ip < ip' && ip' + MFLIMIT <= iend + 1
      ensures Walk(In(lowLimit), ip, last, old(ctx.prog), old(hashTable[..]))
           == if going then Walk(In(lowLimit), ip', last', ctx.prog, hashTable[..]) else Parse(ctx.prog, last', hashTable[..], true)
    {
      hide Parsed, HashAt, TableSize, LizardGreedy.Search, Follow, Walk, Takes, CStream.Valid;
      var at, matchLength;
      GoodIn(lowLimit);
      WalkStep(In(lowLimit), ip, last, ctx.prog, hashTable[..]);
      last' := last;
      going, ip', at, matchLength := Search(ip, forwardH, last, lowLimit);
      if going {
        var over;
        over, ip' := TakeMatches(ctx, ip', last, matchLength, at, lowLimit);
        last' := ip';
        going := !over;
        if going {
          ip' := ip' + 1;
        }
      }
    }

    lemma GoodIn(lowLimit: nat)
      requires Valid() && lowLimit >= DICT_SIZE
      ensures Good(In(lowLimit))
    {
    }

    /** Lizard_compress_fast and Lizard_compress_fastBig: whatever the table holds, what they
        write stands for the block. */
    method Compress(ctx: CStream, start: nat) returns (ghost anchor: nat)
      requires Valid() && ctx.Valid() && ctx.kind == kind && ctx.prog.Start? && ctx.base == start
      requires start <= iend <= start + BLOCK_SIZE
      modifies ctx, hashTable
      ensures ctx.kind == kind && ctx.base == start && start <= anchor <= iend
      ensures Parsed(kind, ctx.prog, start, src[..], anchor)
      ensures ctx.View() == Block(kind, ctx.prog, start, src[anchor..iend])
      ensures ctx.prog.Start? || anchor + LASTLITERALS <= iend
      ensures iend - start < MIN_LENGTH ==> ctx.prog.Start?
      ensures var r := ParseOf(kind, src[..], start, iend, old(hashTable[..]));
              ctx.prog == r.p && anchor == r.anchor && hashTable[..] == r.table
    {
      hide Parsed, HashAt, TableSize, Walk, Enter, CStream.Valid, Legal, Between;
      ghost var b, all := InputOf(kind, src[..], start, iend), ParseOf(kind, src[..], start, iend, hashTable[..]);
      var ip: nat, last: nat := start, start;
      Begins(ctx, start);
      if iend - start >= MIN_LENGTH {
        var maxDistance := MaxDistance(kind);
        var lowLimit := if DICT_SIZE + maxDistance >= ip + DICT_SIZE then DICT_SIZE else ip + DICT_SIZE - maxDistance;
        EnterFirst(ip, lowLimit);
        ip := ip + 1;
        Begins(ctx, start);
        var forwardH: nat := HashPosition(ip);
        var going := true;
        while going
          invariant Between(ctx, start, ip, last, going) && start <= last <= ip && In(lowLimit) == b
          invariant going ==> ip + MFLIMIT <= iend + 1
          invariant going ==> forwardH == HashPosition(ip)
          invariant all == if going then Walk(b, ip, last, ctx.prog, hashTable[..]) else Parse(ctx.prog, last, hashTable[..], true)
          decreases iend - ip, going
        {
          going, ip, last := Round(ctx, start, ip, last, forwardH, lowLimit);
          if going {
            forwardH := HashPosition(ip);
          }
        }
      }
      Ends(ctx, start, if iend - start < MIN_LENGTH then iend else ip, last);
      ctx.EncodeLastLiterals(src, iend, last);
      anchor := last;
    }

    /** The first position of a block enters the table without being probed. */
    method EnterFirst(ip: nat, lowLimit: nat)
      requires Valid() && lowLimit >= DICT_SIZE && ip + 8 <= iend
      modifies hashTable
      ensures Good(In(lowLimit)) && hashTable[..] == Enter(In(lowLimit), old(hashTable[..]), ip)
    {
      hide HashAt;
      HashIs(ip, lowLimit);
      hashTable[HashPosition(ip)] := ip + DICT_SIZE;
    }
  }

  lemma FourAndMore(s: seq<byte>, ip: nat, at: nat, len: nat)
    requires at <= ip && ip + 4 + len <= |s| && s[ip..ip + 4] == s[at..at + 4] && Same(s, ip + 4, at + 4, len)
    ensures Same(s, ip, at, len + 4)
  {
    SliceConcat(s, ip, ip + 4, ip + 4 + len);
    SliceConcat(s, at, at + 4, at + 4 + len);
  }
}
