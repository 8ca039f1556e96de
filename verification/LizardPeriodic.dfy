/** Sources that repeat are compressed: what the parsers fast and fastBig find in them
    (lizard_parser_fastbig.h:35-175), whatever the hash table holds, and what Lizard_compress
    then takes (lizard_compress.c:141-250). */
module LizardPeriodic {
  import opened Bytes
  import opened Arithmetic
  import opened LittleEndian
  import opened LizardCodes
  import opened LizardEncoder
  import opened LizardGreedy
  import opened LizardCompress

  // ----- Repetition -----

  /** The first `n` bytes repeat after `d`. */
  ghost predicate Periodic(s: seq<byte>, n: nat, d: nat) {
    1 <= d <= n <= |s| && forall k :: d <= k < n ==> s[k] == s[k - d]
  }

  lemma {:induction false} RepeatsAfter(s: seq<byte>, n: nat, d: nat, q: nat, k: nat)
    requires Periodic(s, n, d) && q * d <= k < n
    ensures s[k] == s[k - q * d]
    decreases q
  {
    if q > 0 {
      assert q * d == (q - 1) * d + d;
      RepeatsAfter(s, n, d, q - 1, k - d);
    }
  }

  /** The same place in the period, some periods later. */
  lemma Phases(a: nat, b: nat, d: nat) returns (q: nat)
    requires 1 <= d && b <= a && a % d == b % d
    ensures a - b == q * d && (b < a ==> d <= a - b)
  {
    var k: int := a / d - b / d;
    Difference(a / d, b / d, d, a % d);
    assert a == (a / d) * d + a % d && b == (b / d) * d + b % d;
    TimesAtLeast(k, d);
    q := k;
  }

  lemma Difference(x: nat, y: nat, d: nat, r: nat)
    ensures (x * d + r) - (y * d + r) == (x - y) * d
  {
  }

  /** Two positions with the same place in the period are followed by the same bytes. */
  lemma SamePhase(s: seq<byte>, n: nat, d: nat, a: nat, b: nat, k: nat)
    requires Periodic(s, n, d) && b <= a && a % d == b % d && a + k < n
    ensures s[a + k] == s[b + k]
  {
    var q := Phases(a, b, d);
    RepeatsAfter(s, n, d, q, a + k);
  }

  lemma SameWindow(s: seq<byte>, n: nat, d: nat, a: nat, b: nat, w: nat)
    requires Periodic(s, n, d) && b <= a && a % d == b % d && a + w <= n
    ensures s[a..a + w] == s[b..b + w]
  {
    var x, y := s[a..a + w], s[b..b + w];
    forall k | 0 <= k < w
      ensures x[k] == y[k]
    {
      SamePhase(s, n, d, a, b, k);
    }
  }

  function Four(s: seq<byte>, i: nat): seq<byte>
    requires i + 4 <= |s|
  {
    s[i..i + 4]
  }

  function Place(kind: Codewords, s: seq<byte>, i: nat): (h: nat)
    requires i + 8 <= |s|
    ensures h < TableSize(kind)
  {
    Hash(kind, s[i..i + 8])
  }

  /** No two places in the period are followed by the same four bytes. */
  ghost predicate Distinct(s: seq<byte>, d: nat) {
    d + 4 <= |s| && forall i: nat, j: nat :: i < j < d ==> Four(s, i) != Four(s, j)
  }

  /** The hash table has a place for `i` that no other place in the period shares. */
  ghost predicate OwnPlace(kind: Codewords, s: seq<byte>, d: nat, i: nat) {
    i < d && d + 8 <= |s| && forall j: nat :: j < d && j != i ==> Place(kind, s, j) != Place(kind, s, i)
  }

  /** A source that repeats after 8 to 32 bytes. */
  ghost predicate Repeats(kind: Codewords, s: seq<byte>, n: nat, d: nat, i: nat) {
    FAST_MIN_OFFSET <= d <= 32 && d + 8 <= n && Periodic(s, n, d) && Distinct(s, d) && OwnPlace(kind, s, d, i)
  }

  // ----- One probe -----

  /** The same four bytes are found only at the same place in the period. */
  lemma FoundInPhase(kind: Codewords, s: seq<byte>, n: nat, d: nat, i: nat, a: nat, b: nat)
    requires Repeats(kind, s, n, d, i) && b <= a && a + 4 <= n && s[a..a + 4] == s[b..b + 4]
    ensures a % d == b % d
  {
    hide OwnPlace, Distinct, Repeats, Periodic;
    RepeatsMeans(kind, s, n, d, i);
    Remainder(a, d);
    Remainder(b, d);
    SameWindow(s, n, d, a, a % d, 4);
    SameWindow(s, n, d, b, b % d, 4);
    RepeatsMeans(kind, s, n, d, i);
    assert Four(s, a % d) == Four(s, b % d);
    OnlyOne(s, d, a % d, b % d);
  }

  lemma OnlyOne(s: seq<byte>, d: nat, i: nat, j: nat)
    requires Distinct(s, d) && i < d && j < d && Four(s, i) == Four(s, j)
    ensures i == j
  {
    hide Four;
  }

  lemma Remainder(a: nat, d: nat)
    requires 1 <= d
    ensures a % d <= a && a % d < d && (a % d) % d == a % d
  {
    DivUnique(a % d, d, 0, a % d);
  }

  lemma {:induction false} AgreesToTheEnd(s: seq<byte>, n: nat, d: nat, a: nat, b: nat, k: nat, limit: nat)
    requires Periodic(s, n, d) && b <= a && a % d == b % d && a + k <= limit <= n
    ensures Agree(s, a + k, b + k, limit) == limit - a - k
    decreases limit - k
  {
    if a + k < limit {
      SamePhase(s, n, d, a, b, k);
      AgreesToTheEnd(s, n, d, a, b, k + 1, limit);
    }
  }

  /** A match that ends where matches must end at the latest. */
  ghost predicate Reaches(b: Input, m: Match) {
    m.Match? && m.ip + m.len + LASTLITERALS == b.end
  }

  /** Whatever is found goes on to the end. */
  lemma FoundReaches(b: Input, n: nat, d: nat, i: nat, anchor: nat, ip: nat, e: u32)
    requires Good(b) && b.end <= n && Repeats(b.kind, b.s, n, d, i) && anchor <= ip && ip + 64 <= b.end
    requires Probe(b, anchor, ip, e).Match?
    ensures Reaches(b, Probe(b, anchor, ip, e))
  {
    hide Repeats, AgreeBack, Agree;
    var at := e - DICT_SIZE;
    RepeatsMeans(b.kind, b.s, n, d, i);
    FoundInPhase(b.kind, b.s, n, d, i, ip, at);
    AgreesToTheEnd(b.s, n, d, ip, at, 4, b.end - LASTLITERALS);
  }

  lemma RepeatsMeans(kind: Codewords, s: seq<byte>, n: nat, d: nat, i: nat)
    requires Repeats(kind, s, n, d, i)
    ensures FAST_MIN_OFFSET <= d <= 32 && d + 8 <= n <= |s| && Periodic(s, n, d) && Distinct(s, d) && i < d
  {
    hide Distinct;
  }

  /** One period back there is a match. */
  lemma PeriodBack(b: Input, n: nat, d: nat, i: nat, anchor: nat, ip: nat)
    requires Good(b) && b.end <= n && Repeats(b.kind, b.s, n, d, i) && anchor <= ip && ip + 64 <= b.end
    requires b.low + d <= ip
    ensures Probe(b, anchor, ip, ip - d + DICT_SIZE).Match?
  {
    hide Repeats, AgreeBack, Agree;
    RepeatsMeans(b.kind, b.s, n, d, i);
    OnePeriod(ip, d);
    SameWindow(b.s, n, d, ip, ip - d, 4);
  }

  lemma OnePeriod(a: nat, d: nat)
    requires 1 <= d <= a
    ensures (a - d) % d == a % d
  {
    assert a == d * (a / d) + a % d;
    DivUnique(a - d, d, a / d - 1, a % d);
  }


  // ----- The search -----

  lemma PlaceOfPhase(s: seq<byte>, kind: Codewords, n: nat, d: nat, i: nat, p: nat)
    requires Repeats(kind, s, n, d, i) && p + 8 <= n
    ensures p % d < d && d + 8 <= |s| && Place(kind, s, p) == Place(kind, s, p % d)
  {
    hide Hash, Distinct, OwnPlace;
    Remainder(p, d);
    SameWindow(s, n, d, p, p % d, 8);
  }

  /** Less than a period later the place in the period is another, and so is that in the
      table. */
  lemma OtherPlace(kind: Codewords, s: seq<byte>, n: nat, d: nat, i: nat, p: nat, q: nat)
    requires Repeats(kind, s, n, d, i) && p % d == i && p < q < p + d && q + 8 <= n
    ensures Place(kind, s, q) != Place(kind, s, p)
  {
    hide Place, Distinct, Periodic;
    PlaceOfPhase(s, kind, n, d, i, p);
    PlaceOfPhase(s, kind, n, d, i, q);
    if q % d == p % d {
      var k := Phases(q, p, d);
      assert false;
    }
  }

  /** The table holds the position whose place nothing else takes, once it has been probed. */
  ghost predicate Knows(b: Input, table: Table, at: nat, ip: nat)
    requires at + 8 <= |b.s| && |table| == TableSize(b.kind)
  {
    at < ip ==> table[Place(b.kind, b.s, at)] == at + DICT_SIZE
  }

  lemma EnterIs(b: Input, t: Table, p: nat)
    requires Good(b) && p + 8 <= b.end && |t| == TableSize(b.kind)
    ensures Enter(b, t, p) == t[Place(b.kind, b.s, p) := p + DICT_SIZE] && Entry(b, t, p) == t[Place(b.kind, b.s, p)]
  {
    hide Hash;
  }

  lemma KnowsStill(b: Input, n: nat, d: nat, i: nat, at: nat, ip: nat, table: Table)
    requires Good(b) && b.end <= n && Repeats(b.kind, b.s, n, d, i) && at % d == i && ip < at + d
    requires at + 8 <= b.end && ip + 8 <= b.end && |table| == TableSize(b.kind) && Knows(b, table, at, ip)
    ensures Knows(b, Enter(b, table, ip), at, ip + 1)
  {
    hide Place, Repeats, Enter;
    EnterIs(b, table, ip);
    if at < ip {
      OtherPlace(b.kind, b.s, n, d, i, at, ip);
    }
  }

  /** The search behind the beginning of a block finds a match at the second occurrence of
      that place, if it has found none before. */
  lemma {:induction false} SearchReaches(b: Input, n: nat, d: nat, i: nat, start: nat, j: nat, ip: nat, nb: nat, table: Table)
    requires Good(b) && b.end <= n && Repeats(b.kind, b.s, n, d, i) && j < d && (start + j) % d == i
    requires b.low <= start && start + 128 <= b.end && start < ip <= start + j + d && nb == 63 + ip - start
    requires |table| == TableSize(b.kind) && Knows(b, table, start + j, ip)
    ensures var m := Search(b, start, ip, 1, nb, table).m; Reaches(b, m) && start <= m.ip <= start + 63
    decreases start + j + d - ip
  {
    hide Repeats, Probe, Place, Enter, Entry, Knows, Search;
    RepeatsMeans(b.kind, b.s, n, d, i);
    OneProbe(b, start, ip, nb, table);
    if Probe(b, start, ip, Entry(b, table, ip)).Match? {
      FoundReaches(b, n, d, i, start, ip, Entry(b, table, ip));
    } else {
      if ip == start + j + d {
        AtSecond(b, n, d, i, start + j, table);
        PeriodBack(b, n, d, i, start, ip);
        assert false;
      }
      KnowsStill(b, n, d, i, start + j, ip, table);
      SearchReaches(b, n, d, i, start, j, ip + 1, nb + 1, Enter(b, table, ip));
    }
  }

  lemma OneProbe(b: Input, start: nat, ip: nat, nb: nat, table: Table)
    requires Good(b) && start <= ip && SKIP_TRIGGER_UNIT <= nb < 128 && ip + 1 + MFLIMIT <= b.end && |table| == TableSize(b.kind)
    ensures var m := Probe(b, start, ip, Entry(b, table, ip));
            Search(b, start, ip, 1, nb, table)
            == if m.Match? then Found(m, Enter(b, table, ip)) else Search(b, start, ip + 1, 1, nb + 1, Enter(b, table, ip))
    ensures var m := Probe(b, start, ip, Entry(b, table, ip)); m.Match? ==> start <= m.ip <= ip
  {
    hide Probe, Enter, Entry;
  }

  lemma AtSecond(b: Input, n: nat, d: nat, i: nat, at: nat, table: Table)
    requires Good(b) && b.end <= n && Repeats(b.kind, b.s, n, d, i) && at % d == i && at + d + 8 <= b.end
    requires |table| == TableSize(b.kind) && Knows(b, table, at, at + d)
    ensures Entry(b, table, at + d) == at + DICT_SIZE
  {
    hide Repeats, Place, Hash;
    RepeatsMeans(b.kind, b.s, n, d, i);
    EnterIs(b, table, at + d);
    OnePeriod(at + d, d);
    PlaceOfPhase(b.s, b.kind, n, d, i, at);
    PlaceOfPhase(b.s, b.kind, n, d, i, at + d);
  }

  // ----- The block -----

  /** A single sequence, after at most 63 literals, reaches the last sixteen bytes. */
  ghost predicate OneSequence(kind: Codewords, s: seq<byte>, start: nat, end: nat, most: nat, q: Parse) {
    && start + most + LASTLITERALS <= end <= |s| && q.anchor == end - LASTLITERALS
    && exists m: Match ::
         && m.Match? && start <= m.ip <= start + most && m.at < m.ip && m.ip + m.len == q.anchor
         && q.p == Then(Start, Sequence(s[start..m.ip], m.ip - m.at, m.len))
  }

  lemma WalkOver(b: Input, start: nat, ip: nat, most: nat, table: Table)
    requires Good(b) && start <= ip && |table| == TableSize(b.kind) && start + most + LASTLITERALS <= b.end
    requires var m := Search(b, start, ip, 1, SKIP_TRIGGER_UNIT, table).m; Reaches(b, m) && start <= m.ip <= start + most
    ensures OneSequence(b.kind, b.s, start, b.end, most, Walk(b, ip, start, Start, table))
  {
    hide Search;
    var f := Search(b, start, ip, 1, SKIP_TRIGGER_UNIT, table);
    WalkStep(b, ip, start, Start, table);
    FollowStep(b, start, Start, f.m, f.table);
  }

  /** Where the next position of a phase is. */
  lemma NextOfPhase(start: nat, d: nat, i: nat) returns (j: nat)
    requires i < d
    ensures j < d && (start + j) % d == i
  {
    var r, q := start % d, start / d;
    assert start == d * q + r;
    if r <= i {
      j := i - r;
      DivUnique(start + j, d, q, i);
    } else {
      j := i + d - r;
      assert (q + 1) * d == q * d + d;
      DivUnique(start + j, d, q + 1, i);
    }
  }

  /** Whatever the hash table holds, a block of a source that repeats becomes one sequence. */
  lemma RepeatedBlock(kind: Codewords, s: seq<byte>, n: nat, d: nat, i: nat, start: nat, end: nat, table: Table)
    requires Repeats(kind, s, n, d, i) && start + 128 <= end <= n && end + DICT_SIZE < 0x1_0000_0000 && |table| == TableSize(kind)
    ensures OneSequence(kind, s, start, end, 63, ParseOf(kind, s, start, end, table))
  {
    hide Repeats, Search, Walk, Place, OneSequence, Enter, Knows;
    RepeatsMeans(kind, s, n, d, i);
    var b := InputOf(kind, s, start, end);
    var j := NextOfPhase(start, d, i);
    var t := Enter(b, table, start);
    KnowsNothing(b, table, start + j, start);
    KnowsStill(b, n, d, i, start + j, start, table);
    SearchReaches(b, n, d, i, start, j, start + 1, SKIP_TRIGGER_UNIT, t);
    WalkOver(b, start, start + 1, 63, t);
  }

  lemma KnowsNothing(b: Input, table: Table, at: nat, ip: nat)
    requires at + 8 <= |b.s| && |table| == TableSize(b.kind) && ip <= at
    ensures Knows(b, table, at, ip)
  {
  }

  // ----- What it takes -----

  lemma ExtLength(n: nat, max: nat)
    requires n < 0x100_0000
    ensures |Beyond(n, max)| <= 4
  {
  }

  lemma CodedLength(kind: Codewords, i: Sequence, size: nat, last: nat)
    requires LegalSequence(kind, i, size, last)
    ensures Sum(Coded(kind, i, size, last)) <= |i.literals| + 13
  {
    hide Beyond, InToken;
    ExtLength(|i.literals|, RUN_MASK_LZ4);
    ExtLength(|i.literals|, MAX_SHORT_LITLEN);
    ExtLength(0, MAX_SHORT_MATCHLEN);
    if i.len >= MINMATCH {
      ExtLength(i.len - MINMATCH, ML_MASK_LZ4);
    }
    ExtLength(i.len, MAX_SHORT_MATCHLEN);
    if i.len >= MM_LONGOFF {
      ExtLength(i.len - MM_LONGOFF, LAST_LONG_OFF);
    }
    NothingBeyond();
  }

  lemma OneSequenceLength(kind: Codewords, i: Sequence, start: nat, tail: seq<byte>)
    requires Legal(kind, Then(Start, i), start)
    ensures var b := Block(kind, Then(Start, i), start, tail);
            Sum(b) <= |i.literals| + |tail| + 13 && |tail| <= |b.literals|
  {
    hide Coded, LegalSequence;
    assert LegalSequence(kind, i, start + Size(Start), Last(Start));
    CodedLength(kind, i, start, 0);
    assert LizardCodes.Written(kind, Then(Start, i), start) == Join(Nothing, Coded(kind, i, start, 0));
  }

  /** A block of which the parser makes one sequence is kept as streams. */
  lemma OneSequenceCost(kind: Codewords, streams: Streams, s: seq<byte>, start: nat, size: nat, most: nat, table: Table)
    requires start + size <= |s| && start + size <= MAX_INPUT_SIZE && |table| == TableSize(kind) && most < 64
    requires IsGreedy(kind, streams, s, start, size, table)
    requires OneSequence(kind, s, start, start + size, most, ParseOf(kind, s, start, start + size, table))
    ensures 640 <= size ==> Cost(streams, size) <= most + 45
  {
    hide ParseOf, Legal, Block, Sum;
    var q, end := ParseOf(kind, s, start, start + size, table), start + size;
    var m: Match :| m.Match? && start <= m.ip <= start + most && m.at < m.ip && m.ip + m.len == q.anchor
                    && q.p == Then(Start, Sequence(s[start..m.ip], m.ip - m.at, m.len));
    OneSequenceLength(kind, Sequence(s[start..m.ip], m.ip - m.at, m.len), start, s[q.anchor..end]);
  }

  lemma CostAtMost(streams: Streams, size: nat)
    ensures Cost(streams, size) <= size + 4
  {
    hide Packs;
  }

  // ----- The whole source -----

  /** 108 bytes for each block of 128 KB, and 643 for the rest. */
  function RepeatBound(n: nat): nat {
    644 + 108 * (n / BLOCK_SIZE)
  }

  lemma {:induction false} RepeatedCosts(kind: Codewords, parsed: seq<Streams>, s: seq<byte>, n: nat, table: Table, d: nat, i: nat)
    requires n <= |s| && n <= MAX_INPUT_SIZE && |table| == TableSize(kind)
    requires Parses(kind, parsed, s, n, table) && BLOCK_SIZE * |parsed| < n + BLOCK_SIZE && Repeats(kind, s, n, d, i)
    ensures Costs(parsed, n) <= 108 * |parsed| + if BLOCK_SIZE * |parsed| <= n then 0 else 535
    decreases |parsed|
  {
    hide Repeats, IsParse, IsGreedy, ParseOf, TableBefore, Cost, OneSequence;
    if parsed != [] {
      var k := |parsed| - 1;
      var init, part, at, now := parsed[..k], PartSize(n, k), BLOCK_SIZE * k, TableBefore(kind, s, n, table, k);
      assert forall j: nat :: j < k ==> init[j] == parsed[j];
      RepeatedCosts(kind, init, s, n, table, d, i);
      if part >= 640 {
        RepeatedBlock(kind, s, n, d, i, at, at + part, now);
        OneSequenceCost(kind, parsed[k], s, at, part, 63, now);
      } else {
        CostAtMost(parsed[k], part);
      }
    }
  }

  /** Lizard_compress on a source that repeats: a few hundred bytes at most, and a hundred for
      every block of 128 KB. */
  method CompressRepeated(kind: Codewords, src: array<byte>, n: nat, dst: array<byte>, maxOut: nat, hashTable: array<u32>,
                          ghost d: nat, ghost i: nat)
    returns (r: nat)
    requires src != dst && n <= src.Length && n <= MAX_INPUT_SIZE && hashTable.Length == TableSize(kind)
    requires maxOut < dst.Length && RepeatBound(n) <= maxOut < 0x8000_0000 && Repeats(kind, src[..], n, d, i)
    modifies dst, hashTable
    ensures 0 < r <= RepeatBound(n)
  {
    hide Holds, CompressBound, LevelOf, Parses, Repeats, SomePacks, Spared, Costs, TableSize;
    ghost var c, parsed;
    ghost var s, table := src[..], hashTable[..];
    r, c, parsed := Compress(kind, src, n, dst, maxOut, hashTable);
    RepeatedCosts(kind, parsed, s, n, table, d, i);
    Blocks(n, |parsed|);
  }

  lemma Blocks(n: nat, k: nat)
    requires BLOCK_SIZE * k < n + BLOCK_SIZE
    ensures 1 + 108 * k + (if BLOCK_SIZE * k <= n then 0 else 535) <= RepeatBound(n)
  {
  }

  // ----- There are such sources -----

  /** The hash of eight bytes that are known. */
  lemma HashOf(s: seq<byte>, a: nat, b: nat, q: nat, r: nat, p: nat, x: nat)
    requires |s| == 8
    requires a == s[0] as int + 0x100 * s[1] as int + 0x1_0000 * s[2] as int + 0x100_0000 * s[3] as int
    requires b == s[4] as int + 0x100 * s[5] as int + 0x1_0000 * s[6] as int + 0x100_0000 * s[7] as int
    requires (a + 0x1_0000_0000 * b) * 889523592379 == q * 0x1_0000_0000_0000_0000 + r && r < 0x1_0000_0000_0000_0000
    requires r * 0x100_0000 == p * 0x1_0000_0000_0000_0000 + x && x < 0x1_0000_0000_0000_0000
    ensures Hash(LIZv1, s) == x / 0x4_0000_0000_0000 && Hash(LZ4, s) == x / 0x4000_0000_0000
  {
    hide ReadLE64, ReadLE32;
    LowAndHigh(s);
    DivUnique((a + 0x1_0000_0000 * b) * 889523592379, TWO64, q, r);
    DivUnique(r * 0x100_0000, TWO64, p, x);
  }
  lemma LowAndHigh(s: seq<byte>)
    requires |s| == 8
    ensures ReadLE64(s) == (s[0] as int + 0x100 * s[1] as int + 0x1_0000 * s[2] as int + 0x100_0000 * s[3] as int)
            + 0x1_0000_0000 * (s[4] as int + 0x100 * s[5] as int + 0x1_0000 * s[6] as int + 0x100_0000 * s[7] as int)
  {
  }

  lemma EightPlaces(kind: Codewords)
    ensures Hash(kind, [0, 1, 2, 3, 4, 5, 6, 7]) != Hash(kind, [1, 2, 3, 4, 5, 6, 7, 0])
    ensures Hash(kind, [0, 1, 2, 3, 4, 5, 6, 7]) != Hash(kind, [2, 3, 4, 5, 6, 7, 0, 1])
    ensures Hash(kind, [0, 1, 2, 3, 4, 5, 6, 7]) != Hash(kind, [3, 4, 5, 6, 7, 0, 1, 2])
    ensures Hash(kind, [0, 1, 2, 3, 4, 5, 6, 7]) != Hash(kind, [4, 5, 6, 7, 0, 1, 2, 3])
    ensures Hash(kind, [0, 1, 2, 3, 4, 5, 6, 7]) != Hash(kind, [5, 6, 7, 0, 1, 2, 3, 4])
    ensures Hash(kind, [0, 1, 2, 3, 4, 5, 6, 7]) != Hash(kind, [6, 7, 0, 1, 2, 3, 4, 5])
    ensures Hash(kind, [0, 1, 2, 3, 4, 5, 6, 7]) != Hash(kind, [7, 0, 1, 2, 3, 4, 5, 6])
  {
    hide Hash;
    HashOf([0, 1, 2, 3, 4, 5, 6, 7], 0x3020100, 0x7060504, 0x5aea0df3f, 0xd7975717a752bb00, 0xd79757, 0x17a752bb00000000);
    HashOf([1, 2, 3, 4, 5, 6, 7, 0], 0x4030201, 0x70605, 0x5aea0df, 0x3fd7975717a752bb, 0x3fd797, 0x5717a752bb000000);
    HashOf([2, 3, 4, 5, 6, 7, 0, 1], 0x5040302, 0x1000706, 0xcf216b7d, 0x9a3fd79687fbea76, 0x9a3fd7, 0x9687fbea76000000);
    HashOf([3, 4, 5, 6, 7, 0, 1, 2], 0x6050403, 0x2010007, 0x19f069b24, 0xf39a3fd5f8508231, 0xf39a3f, 0xd5f8508231000000);
    HashOf([4, 5, 6, 7, 0, 1, 2, 3], 0x7060504, 0x3020100, 0x26ef23d31, 0x55f39a3d68a519ec, 0x55f39a, 0x3d68a519ec000000);
    HashOf([5, 6, 7, 0, 1, 2, 3, 4], 0x70605, 0x4030201, 0x33edde5b0, 0x1d55f39700f9b1a7, 0x1d55f3, 0x9700f9b1a7000000);
    HashOf([6, 7, 0, 1, 2, 3, 4, 5], 0x1000706, 0x5040302, 0x40ec98e35, 0x571d55ef8b764962, 0x571d55, 0xef8b764962000000);
    HashOf([7, 0, 1, 2, 3, 4, 5, 6], 0x2010007, 0x6050403, 0x4deb536ba, 0x97571d5114e5091d, 0x97571d, 0x5114e5091d000000);
  }

  /** The bytes 0 to 7 over and over again. */
  lemma CountingRepeats(kind: Codewords, s: seq<byte>, n: nat)
    requires 16 <= n && Periodic(s, n, 8) && s[..8] == [0, 1, 2, 3, 4, 5, 6, 7]
    ensures Repeats(kind, s, n, 8, 0)
  {
    hide Hash;
    EightPlaces(kind);
    EightFrom(s, n, 0, [0, 1, 2, 3, 4, 5, 6, 7]);
    EightFrom(s, n, 1, [1, 2, 3, 4, 5, 6, 7, 0]);
    EightFrom(s, n, 2, [2, 3, 4, 5, 6, 7, 0, 1]);
    EightFrom(s, n, 3, [3, 4, 5, 6, 7, 0, 1, 2]);
    EightFrom(s, n, 4, [4, 5, 6, 7, 0, 1, 2, 3]);
    EightFrom(s, n, 5, [5, 6, 7, 0, 1, 2, 3, 4]);
    EightFrom(s, n, 6, [6, 7, 0, 1, 2, 3, 4, 5]);
    EightFrom(s, n, 7, [7, 0, 1, 2, 3, 4, 5, 6]);
    assert OwnPlace(kind, s, 8, 0) && Distinct(s, 8) by {
      hide Periodic;
      assert forall j: nat :: j < 8 ==> Four(s, j)[0] == j;
    }
  }

  lemma EightFrom(s: seq<byte>, n: nat, j: nat, w: seq<byte>)
    requires 16 <= n && Periodic(s, n, 8) && s[..8] == [0, 1, 2, 3, 4, 5, 6, 7] && j < 8
    requires |w| == 8 && forall k :: 0 <= k < 8 ==> w[k] == if j + k < 8 then j + k else j + k - 8
    ensures s[j] == j && s[j..j + 8] == w
  {
    var c := s[..8];
    forall k | 0 <= k < 8
      ensures s[j..j + 8][k] == w[k]
    {
      assert j + k < 8 ==> c[j + k] == s[j + k];
      assert j + k >= 8 ==> s[j + k] == s[j + k - 8] == c[j + k - 8];
    }
  }

  // ----- Runs of one byte -----

  /** The block from `start` to `end` is a run. */
  ghost predicate IsRun(s: seq<byte>, start: nat, end: nat) {
    start < end <= |s| && forall k :: start <= k < end ==> s[k] == s[start]
  }

  lemma RunFits(s: seq<byte>, start: nat, end: nat)
    requires IsRun(s, start, end)
    ensures start < end <= |s|
  {
  }

  /** The steps of a search: one, and then longer by one after every 64. */
  function StepAt(nb: nat): nat
    requires SKIP_TRIGGER_UNIT <= nb
  {
    if nb == SKIP_TRIGGER_UNIT then 1 else (nb - 1) / SKIP_TRIGGER_UNIT
  }

  /** How far from the beginning of the block it has come. */
  function PosAt(nb: nat): nat
    requires SKIP_TRIGGER_UNIT <= nb <= 515
  {
    if nb == SKIP_TRIGGER_UNIT then 1
    else
      var q, r := (nb - 1) / SKIP_TRIGGER_UNIT, (nb - 1) % SKIP_TRIGGER_UNIT;
      match q
      case 1 => 2 + r
      case 2 => 66 + 2 * r
      case 3 => 194 + 3 * r
      case 4 => 386 + 4 * r
      case 5 => 642 + 5 * r
      case 6 => 962 + 6 * r
      case 7 => 1346 + 7 * r
      case _ => 1794 + 8 * r
  }

  lemma PosNext(nb: nat)
    requires SKIP_TRIGGER_UNIT <= nb <= 514
    ensures PosAt(nb + 1) == PosAt(nb) + StepAt(nb)
    ensures PosAt(nb + 1) <= 1810 && (nb == 514 ==> PosAt(nb + 1) == 1810)
    ensures StepAt(nb + 1) == nb / SKIP_TRIGGER_UNIT
    ensures 1 <= StepAt(nb) <= 8 && (StepAt(nb) == 8 <==> nb >= 513)
  {
    var q, r := (nb - 1) / SKIP_TRIGGER_UNIT, (nb - 1) % SKIP_TRIGGER_UNIT;
    assert nb - 1 == SKIP_TRIGGER_UNIT * q + r;
  }

  lemma {:induction false} RunAgrees(s: seq<byte>, start: nat, end: nat, a: nat, b: nat, limit: nat)
    requires IsRun(s, start, end) && start <= b <= a <= limit <= end
    ensures Agree(s, a, b, limit) == limit - a
    decreases limit - a
  {
    if a < limit {
      RunAgrees(s, start, end, a + 1, b + 1, limit);
    }
  }

  lemma {:induction false} RunAgreesBack(s: seq<byte>, start: nat, end: nat, a: nat, b: nat)
    requires IsRun(s, start, end) && start <= b < a < end
    ensures b - start <= AgreeBack(s, a, b, start)
    decreases b
  {
    if start < b {
      RunAgreesBack(s, start, end, a - 1, b - 1);
    }
  }

  /** In a run the position before is believed exactly if it is at least eight bytes back. */
  lemma RunProbe(b: Input, start: nat, ip: nat, prev: nat)
    requires Good(b) && IsRun(b.s, start, b.end) && b.low <= start <= prev < ip <= prev + 8 && ip + MFLIMIT <= b.end
    ensures var m := Probe(b, start, ip, prev + DICT_SIZE);
            if ip < prev + 8 then m.NoMatch? else Reaches(b, m) && start <= m.ip <= start + 8
  {
    hide Agree, AgreeBack;
    if ip == prev + 8 {
      assert b.s[prev..prev + 4] == b.s[ip..ip + 4];
      RunAgrees(b.s, start, b.end, ip + 4, prev + 4, b.end - LASTLITERALS);
      RunAgreesBack(b.s, start, b.end, ip, prev);
    }
  }

  lemma RunPlace(b: Input, start: nat, ip: nat)
    requires IsRun(b.s, start, b.end) && b.end <= |b.s| && start <= ip && ip + 8 <= b.end
    ensures Place(b.kind, b.s, ip) == Place(b.kind, b.s, start)
  {
    hide Hash;
    assert b.s[ip..ip + 8] == b.s[start..start + 8];
  }

  /** Each probe meets the one before it, which is far enough back once the steps are eight
      bytes long. */
  lemma {:induction false} SearchRun(b: Input, start: nat, ip: nat, nb: nat, prev: nat, table: Table)
    requires Good(b) && IsRun(b.s, start, b.end) && b.low <= start <= prev < ip && start + 8 <= b.end
    requires SKIP_TRIGGER_UNIT <= nb <= 514 && ip == start + PosAt(nb)
    requires ip - prev == if nb == SKIP_TRIGGER_UNIT then 1 else StepAt(nb - 1)
    requires |table| == TableSize(b.kind) && table[Place(b.kind, b.s, start)] == prev + DICT_SIZE
    ensures StepAt(nb) >= 1
    ensures var m := Search(b, start, ip, StepAt(nb), nb, table).m;
            if b.end - start < 1830 then m.NoMatch? else Reaches(b, m) && start <= m.ip <= start + 8
    decreases 514 - nb
  {
    hide Probe, Place, PosAt, Search, IsRun, StepAt, Enter;
    PosNext(nb);
    if nb > SKIP_TRIGGER_UNIT {
      PosNext(nb - 1);
    }
    var step := StepAt(nb);
    SearchStep(b, start, ip, step, nb, table);
    if ip + step + MFLIMIT <= b.end {
      RunPlace(b, start, ip);
      EnterIs(b, table, ip);
      RunProbe(b, start, ip, prev);
      if ip < prev + 8 {
        SearchRun(b, start, ip + step, nb + 1, ip, Enter(b, table, ip));
      }
    }
  }

  /** Whatever the hash table holds, a run becomes one sequence from 1830 bytes on, and only
      literals below that. */
  lemma RunBlock(kind: Codewords, s: seq<byte>, start: nat, end: nat, table: Table)
    requires IsRun(s, start, end) && end + DICT_SIZE < 0x1_0000_0000 && |table| == TableSize(kind)
    ensures var q := ParseOf(kind, s, start, end, table);
            if end - start < 1830 then q.p == Start && q.anchor == start else OneSequence(kind, s, start, end, 8, q)
  {
    hide IsRun, Search, Walk, Place, OneSequence, Enter;
    RunFits(s, start, end);
    if end - start >= MIN_LENGTH {
      var b := InputOf(kind, s, start, end);
      var t := Enter(b, table, start);
      EnterIs(b, table, start);
      SearchRun(b, start, start + 1, SKIP_TRIGGER_UNIT, start, t);
      if end - start >= 1830 {
        WalkOver(b, start, start + 1, 8, t);
      } else {
        WalkStep(b, start + 1, start, Start, t);
      }
    }
  }

  /** So a run is packed exactly from 1830 bytes on. */
  lemma RunCost(kind: Codewords, streams: Streams, s: seq<byte>, start: nat, size: nat, table: Table)
    requires start + size <= |s| && start + size <= MAX_INPUT_SIZE && |table| == TableSize(kind)
    requires IsRun(s, start, start + size) && IsGreedy(kind, streams, s, start, size, table)
    ensures if size < 1830 then Cost(streams, size) == size + 4 else Cost(streams, size) <= 53
  {
    hide ParseOf, Block, OneSequence, IsRun;
    RunBlock(kind, s, start, start + size, table);
    if size < 1830 {
      NothingPacks(kind, start, s[start..start + size]);
    } else {
      OneSequenceCost(kind, streams, s, start, size, 8, table);
    }
  }

  /** Lizard_compress on a single block that is a run. */
  method CompressRun(kind: Codewords, src: array<byte>, n: nat, dst: array<byte>, maxOut: nat, hashTable: array<u32>) returns (r: nat)
    requires src != dst && IsRun(src[..], 0, n) && n <= BLOCK_SIZE && hashTable.Length == TableSize(kind)
    requires n + 5 <= maxOut < dst.Length && maxOut < 0x8000_0000
    modifies dst, hashTable
    ensures if n < 1830 then r == n + 5 else 0 < r <= 54
  {
    hide Holds, CompressBound, LevelOf, Parses, IsRun, SomePacks, Spared, Costs, TableSize, IsGreedy, Cost;
    ghost var c, parsed;
    ghost var s, table := src[..], hashTable[..];
    RunFits(s, 0, n);
    r, c, parsed := Compress(kind, src, n, dst, maxOut, hashTable);
    OneBlock(kind, parsed, s, n, table);
    if parsed != [] {
      RunCost(kind, parsed[0], s, 0, n, table);
    }
  }

  lemma OneBlock(kind: Codewords, parsed: seq<Streams>, s: seq<byte>, n: nat, table: Table)
    requires 0 < n <= |s| && n <= BLOCK_SIZE && |table| == TableSize(kind)
    requires Parses(kind, parsed, s, n, table) && BLOCK_SIZE * |parsed| < n + BLOCK_SIZE
    ensures |parsed| <= 1 && Costs(parsed, n) == if parsed == [] then 0 else Cost(parsed[0], n)
    ensures parsed != [] ==> IsGreedy(kind, parsed[0], s, 0, n, table)
  {
    hide Cost, IsGreedy, IsParse;
    if parsed != [] {
      CostsOn([], n, parsed[0]);
      assert parsed == [] + [parsed[0]];
      assert TableBefore(kind, s, n, table, 0) == table;
    }
  }
}
