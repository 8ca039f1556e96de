/** What the parsers fast and fastBig find in a block (lizard_parser_fast.h:41-196,
    lizard_parser_fastbig.h:35-175), as a function of the source and of what the hash table
    holds. */
module LizardGreedy {
  import opened Bytes
  import opened LittleEndian
  import opened LizardCodes

  const LASTLITERALS: nat := WILDCOPYLENGTH
  const MFLIMIT: nat := WILDCOPYLENGTH + MINMATCH
  const DICT_SIZE: nat := 0x100_0000
  const FAST_MIN_OFFSET: nat := 8
  const MIN_LENGTH: nat := MFLIMIT + 1
  const SKIP_TRIGGER_UNIT: nat := 64
  const BLOCK_SIZE: nat := 0x2_0000

  type u32 = x: int | 0 <= x < 0x1_0000_0000 witness 0

  /** The window and the table of level 11, with LZ4 codewords, and level 20, with LIZv1. */
  function MaxDistance(kind: Codewords): nat {
    if kind.LZ4? then 0xffff else 0x3f_ffff
  }

  function TableSize(kind: Codewords): nat {
    if kind.LZ4? then 0x4_0000 else 0x4000
  }

  const Prime5: nat := 889523592379

  /** Lizard_hash5Ptr. */
  function Hash(kind: Codewords, s: seq<byte>): (h: nat)
    requires |s| >= 8
    ensures h < TableSize(kind)
  {
    var x := ReadLE64(s) * Prime5 % TWO64 * 0x100_0000 % TWO64;
    if kind.LZ4? then x / 0x4000_0000_0000 else x / 0x4_0000_0000_0000
  }

  // ----- The source and the table -----

  /** What a parser is given: the source up to the end of the block, and how far back its
      window goes. */
  datatype Input = Input(kind: Codewords, s: seq<byte>, low: nat, end: nat)

  predicate Good(b: Input) {
    b.end <= |b.s| && b.end + DICT_SIZE < 0x1_0000_0000
  }

  /** Positions, counted from DICT_SIZE. */
  type Table = seq<u32>

  function HashAt(b: Input, p: nat): (h: nat)
    requires p + 8 <= |b.s|
    ensures h < TableSize(b.kind)
  {
    Hash(b.kind, b.s[p..p + 8])
  }

  function Enter(b: Input, t: Table, p: nat): (u: Table)
    requires Good(b) && p + 8 <= b.end && |t| == TableSize(b.kind)
    ensures |u| == |t|
  {
    t[HashAt(b, p) := p + DICT_SIZE]
  }

  function Entry(b: Input, t: Table, p: nat): u32
    requires p + 8 <= |b.s| && |t| == TableSize(b.kind)
  {
    t[HashAt(b, p)]
  }

  // ----- What is found at a position -----

  /** The bytes that two positions have in common, up to a limit. */
  function Agree(s: seq<byte>, a: nat, b: nat, limit: nat): (n: nat)
    requires b <= a <= limit <= |s|
    ensures a + n <= limit
    decreases limit - a
  {
    if a == limit || s[a] != s[b] then 0 else 1 + Agree(s, a + 1, b + 1, limit)
  }

  /** And those before them. */
  function AgreeBack(s: seq<byte>, a: nat, b: nat, anchor: nat): (n: nat)
    requires anchor <= a && b <= a <= |s|
    ensures anchor + n <= a && n <= b
  {
    if a > anchor && b > 0 && s[a - 1] == s[b - 1] then 1 + AgreeBack(s, a - 1, b - 1, anchor) else 0
  }

  /** An entry points into the window, at least eight bytes back, to the same four bytes. */
  predicate Believed(b: Input, ip: nat, e: u32)
    requires Good(b) && ip + MFLIMIT <= b.end
  {
    && DICT_SIZE + b.low <= e && e + FAST_MIN_OFFSET <= ip + DICT_SIZE <= e + MaxDistance(b.kind)
    && b.s[e - DICT_SIZE..e - DICT_SIZE + 4] == b.s[ip..ip + 4]
  }

  /** Only a long match may lie far back. */
  predicate LongEnough(kind: Codewords, len: nat, distance: nat) {
    kind.LZ4? || len >= MINMATCH + MM_LONGOFF || distance < MAX_16BIT_OFFSET
  }

  /** A match of `len` bytes at `ip` with those at `at`. */
  datatype Match = NoMatch | Match(ip: nat, at: nat, len: nat)

  /** The match that an entry leads to, extended in both directions. */
  function Probe(b: Input, anchor: nat, ip: nat, e: u32): (m: Match)
    requires Good(b) && anchor <= ip && ip + MFLIMIT <= b.end
    ensures m.Match? ==>
              && anchor <= m.ip <= ip && m.at + FAST_MIN_OFFSET <= m.ip && MINMATCH <= m.len
              && ip + MINMATCH <= m.ip + m.len <= b.end - LASTLITERALS
  {
    if Believed(b, ip, e) then
      var at := e - DICT_SIZE;
      var back := AgreeBack(b.s, ip, at, anchor);
      var len := back + MINMATCH + Agree(b.s, ip + MINMATCH, at + MINMATCH, b.end - LASTLITERALS);
      if LongEnough(b.kind, len, ip - at) then Match(ip - back, at - back, len) else NoMatch
    else NoMatch
  }

  // ----- The search -----

  datatype Found = Found(m: Match, table: Table)

  /** Ever longer steps ahead until a match is found, or the end is too near. Each position
      that is probed enters the table. */
  function Search(b: Input, anchor: nat, ip: nat, step: nat, nb: nat, table: Table): (f: Found)
    requires Good(b) && anchor <= ip && 1 <= step && SKIP_TRIGGER_UNIT <= nb && |table| == TableSize(b.kind)
    ensures |f.table| == |table|
    ensures f.m.Match? ==>
              && anchor <= f.m.ip && f.m.at + FAST_MIN_OFFSET <= f.m.ip && MINMATCH <= f.m.len
              && ip + MINMATCH <= f.m.ip + f.m.len <= b.end - LASTLITERALS
    decreases b.end - ip
  {
    if ip + step + MFLIMIT > b.end then Found(NoMatch, table)
    else
      var m := Probe(b, anchor, ip, Entry(b, table, ip));
      if m.Match? then Found(m, Enter(b, table, ip))
      else Search(b, anchor, ip + step, nb / SKIP_TRIGGER_UNIT, nb + 1, Enter(b, table, ip))
  }

  // ----- The whole parse -----

  /** The sequences written, where the last one ends, and the table; and whether the end is
      too near to go on. */
  datatype Parse = Parse(p: Prog, anchor: nat, table: Table, over: bool)

  /** A match is taken, and those that follow right behind it. */
  function Follow(b: Input, anchor: nat, p: Prog, m: Match, table: Table): (r: Parse)
    requires Good(b) && m.Match? && anchor <= m.ip && m.at <= m.ip && MINMATCH <= m.len && m.ip + m.len + LASTLITERALS <= b.end
    requires |table| == TableSize(b.kind)
    ensures |r.table| == |table| && m.ip + m.len <= r.anchor && r.anchor + LASTLITERALS <= b.end
    ensures !r.over ==> r.anchor + MFLIMIT <= b.end
    decreases b.end - m.ip
  {
    var q, ip := Then(p, Sequence(b.s[anchor..m.ip], m.ip - m.at, m.len)), m.ip + m.len;
    if ip + MFLIMIT > b.end then Parse(q, ip, table, true)
    else
      var t := Enter(b, table, ip - 2);
      var next := Probe(b, ip, ip, Entry(b, t, ip));
      if next.Match? then Follow(b, ip, q, next, Enter(b, t, ip)) else Parse(q, ip, Enter(b, t, ip), false)
  }

  /** The main loop, from a position that has not been probed. */
  function Walk(b: Input, ip: nat, anchor: nat, p: Prog, table: Table): (r: Parse)
    requires Good(b) && anchor <= ip && |table| == TableSize(b.kind)
    ensures |r.table| == |table|
    decreases b.end - ip
  {
    var f := Search(b, anchor, ip, 1, SKIP_TRIGGER_UNIT, table);
    if f.m.NoMatch? then Parse(p, anchor, f.table, true)
    else
      var q := Follow(b, anchor, p, f.m, f.table);
      if q.over then q else Walk(b, q.anchor + 1, q.anchor, q.p, q.table)
  }

  /** The block from `start` to `end`. */
  function InputOf(kind: Codewords, s: seq<byte>, start: nat, end: nat): Input {
    Input(kind, s, if MaxDistance(kind) >= start then 0 else start - MaxDistance(kind), end)
  }

  /** What a parser makes of it. */
  function ParseOf(kind: Codewords, s: seq<byte>, start: nat, end: nat, table: Table): (r: Parse)
    requires start <= end <= |s| && end + DICT_SIZE < 0x1_0000_0000 && |table| == TableSize(kind)
    ensures |r.table| == |table|
  {
    var b := InputOf(kind, s, start, end);
    if end - start < MIN_LENGTH then Parse(Start, start, table, true)
    else Walk(b, start + 1, start, Start, Enter(b, table, start))
  }

  // ----- One step of each -----

  lemma BackStep(s: seq<byte>, a: nat, b: nat, anchor: nat)
    requires anchor <= a && b <= a <= |s|
    ensures AgreeBack(s, a, b, anchor)
            == if a > anchor && b > 0 && s[a - 1] == s[b - 1] then 1 + AgreeBack(s, a - 1, b - 1, anchor) else 0
  {
  }

  lemma NoBack(s: seq<byte>, a: nat, b: nat)
    requires b <= a <= |s|
    ensures AgreeBack(s, a, b, a) == 0
  {
  }

  lemma SearchStep(b: Input, anchor: nat, ip: nat, step: nat, nb: nat, table: Table)
    requires Good(b) && anchor <= ip && 1 <= step && SKIP_TRIGGER_UNIT <= nb && |table| == TableSize(b.kind)
    ensures Search(b, anchor, ip, step, nb, table)
            == if ip + step + MFLIMIT > b.end then Found(NoMatch, table)
               else
                 var m, t := Probe(b, anchor, ip, table[HashAt(b, ip)]), Enter(b, table, ip);
                 if m.Match? then Found(m, t) else Search(b, anchor, ip + step, nb / SKIP_TRIGGER_UNIT, nb + 1, t)
  {
    hide Probe, HashAt;
  }

  lemma FollowStep(b: Input, anchor: nat, p: Prog, m: Match, table: Table)
    requires Good(b) && m.Match? && anchor <= m.ip && m.at <= m.ip && MINMATCH <= m.len && m.ip + m.len + LASTLITERALS <= b.end
    requires |table| == TableSize(b.kind)
    ensures var q, ip := Then(p, Sequence(b.s[anchor..m.ip], m.ip - m.at, m.len)), m.ip + m.len;
            Follow(b, anchor, p, m, table)
            == if ip + MFLIMIT > b.end then Parse(q, ip, table, true)
               else
                 var t := Enter(b, table, ip - 2);
                 var next, u := Probe(b, ip, ip, t[HashAt(b, ip)]), Enter(b, t, ip);
                 if next.Match? then Follow(b, ip, q, next, u) else Parse(q, ip, u, false)
  {
    hide Probe, HashAt;
  }

  lemma WalkStep(b: Input, ip: nat, anchor: nat, p: Prog, table: Table)
    requires Good(b) && anchor <= ip && |table| == TableSize(b.kind)
    ensures var f := Search(b, anchor, ip, 1, SKIP_TRIGGER_UNIT, table);
            Walk(b, ip, anchor, p, table)
            == if f.m.NoMatch? then Parse(p, anchor, f.table, true)
               else
                 var q := Follow(b, anchor, p, f.m, f.table);
                 if q.over then q else Walk(b, q.anchor + 1, q.anchor, q.p, q.table)
  {
    hide Search, Follow;
  }

  lemma ProbeIs(b: Input, anchor: nat, ip: nat, e: u32, back: nat, len: nat)
    requires Good(b) && anchor <= ip && ip + MFLIMIT <= b.end && Believed(b, ip, e)
    requires back == AgreeBack(b.s, ip, e - DICT_SIZE, anchor)
    requires len == Agree(b.s, ip + MINMATCH, e - DICT_SIZE + MINMATCH, b.end - LASTLITERALS)
    ensures Probe(b, anchor, ip, e)
            == if LongEnough(b.kind, len + back + MINMATCH, ip - (e - DICT_SIZE))
               then Match(ip - back, e - DICT_SIZE - back, len + back + MINMATCH) else NoMatch
  {
    hide Agree, AgreeBack;
  }

  lemma NotBelieved(b: Input, anchor: nat, ip: nat, e: u32)
    requires Good(b) && anchor <= ip && ip + MFLIMIT <= b.end && !Believed(b, ip, e)
    ensures Probe(b, anchor, ip, e) == NoMatch
  {
  }

  // ----- When nothing is found -----

  /** The positions that a search probes. */
  function Probes(end: nat, ip: nat, step: nat, nb: nat): seq<nat>
    requires 1 <= step && SKIP_TRIGGER_UNIT <= nb
    decreases end - ip
  {
    if ip + step + MFLIMIT > end then [] else [ip] + Probes(end, ip + step, nb / SKIP_TRIGGER_UNIT, nb + 1)
  }

  /** The table when the first `k` of them have entered it. */
  function Entered(b: Input, table: Table, ps: seq<nat>, k: nat): (t: Table)
    requires Good(b) && |table| == TableSize(b.kind) && k <= |ps| && forall i :: 0 <= i < |ps| ==> ps[i] + 8 <= b.end
    ensures |t| == |table|
  {
    if k == 0 then table else Enter(b, Entered(b, table, ps, k - 1), ps[k - 1])
  }

  /** What the table holds for a position is outside the window or nearer than eight bytes, or
      differs in four bytes, or begins a match too short for its distance. */
  predicate Refuses(b: Input, anchor: nat, ip: nat, e: u32)
    requires Good(b) && anchor <= ip && ip + MFLIMIT <= b.end
  {
    var at := e - DICT_SIZE;
    || at < b.low || at > ip - FAST_MIN_OFFSET || ip - at > MaxDistance(b.kind)
    || b.s[at] != b.s[ip] || b.s[at + 1] != b.s[ip + 1] || b.s[at + 2] != b.s[ip + 2] || b.s[at + 3] != b.s[ip + 3]
    || (b.kind.LIZv1? && ip - at >= MAX_16BIT_OFFSET
        && AgreeBack(b.s, ip, at, anchor) + Agree(b.s, ip, at, b.end - LASTLITERALS) < MINMATCH + MM_LONGOFF)
  }

  /** Exactly then an entry leads to no match. */
  lemma RefusedExactly(b: Input, anchor: nat, ip: nat, e: u32)
    requires Good(b) && anchor <= ip && ip + MFLIMIT <= b.end
    ensures Probe(b, anchor, ip, e).NoMatch? <==> Refuses(b, anchor, ip, e)
  {
    if e >= DICT_SIZE && e + FAST_MIN_OFFSET <= ip + DICT_SIZE {
      FourBytes(b.s, e - DICT_SIZE, ip);
      if b.s[e - DICT_SIZE..e - DICT_SIZE + 4] == b.s[ip..ip + 4] {
        FourAgree(b.s, ip, e - DICT_SIZE, b.end - LASTLITERALS);
      }
    }
  }

  lemma FourBytes(s: seq<byte>, a: nat, b: nat)
    requires a + 4 <= |s| && b + 4 <= |s|
    ensures s[a..a + 4] == s[b..b + 4] <==> s[a] == s[b] && s[a + 1] == s[b + 1] && s[a + 2] == s[b + 2] && s[a + 3] == s[b + 3]
  {
    assert s[a..a + 4] == [s[a], s[a + 1], s[a + 2], s[a + 3]];
    assert s[b..b + 4] == [s[b], s[b + 1], s[b + 2], s[b + 3]];
  }

  lemma FourAgree(s: seq<byte>, a: nat, b: nat, limit: nat)
    requires b <= a && a + 4 <= limit <= |s| && s[b..b + 4] == s[a..a + 4]
    ensures Agree(s, a, b, limit) == 4 + Agree(s, a + 4, b + 4, limit)
  {
    FourBytes(s, b, a);
    assert Agree(s, a + 2, b + 2, limit) == 2 + Agree(s, a + 4, b + 4, limit);
  }

  lemma {:induction false} ProbesFit(end: nat, ip: nat, step: nat, nb: nat)
    requires 1 <= step && SKIP_TRIGGER_UNIT <= nb
    ensures forall i :: 0 <= i < |Probes(end, ip, step, nb)| ==> ip <= Probes(end, ip, step, nb)[i] && Probes(end, ip, step, nb)[i] + MFLIMIT < end
    decreases end - ip
  {
    if ip + step + MFLIMIT <= end {
      ProbesFit(end, ip + step, nb / SKIP_TRIGGER_UNIT, nb + 1);
    }
  }

  lemma {:induction false} EnteredLater(b: Input, table: Table, p: nat, ps: seq<nat>, k: nat)
    requires Good(b) && |table| == TableSize(b.kind) && k <= |ps| && p + 8 <= b.end
    requires forall i :: 0 <= i < |ps| ==> ps[i] + 8 <= b.end
    ensures Entered(b, table, [p] + ps, k + 1) == Entered(b, Enter(b, table, p), ps, k)
  {
    hide Enter;
    if k > 0 {
      EnteredLater(b, table, p, ps, k - 1);
    } else {
      assert Entered(b, table, [p] + ps, 0) == table;
    }
  }

  /** The entry that is found for position number `i`. */
  function EntryAt(b: Input, table: Table, ps: seq<nat>, i: nat): u32
    requires Good(b) && |table| == TableSize(b.kind) && i < |ps| && forall i :: 0 <= i < |ps| ==> ps[i] + MFLIMIT <= b.end
  {
    Entry(b, Entered(b, table, ps, i), ps[i])
  }

  lemma EntryLater(b: Input, table: Table, p: nat, ps: seq<nat>, i: nat)
    requires Good(b) && |table| == TableSize(b.kind) && i < |ps| && p + MFLIMIT <= b.end
    requires forall i :: 0 <= i < |ps| ==> ps[i] + MFLIMIT <= b.end
    ensures forall i :: 0 <= i < |[p] + ps| ==> ([p] + ps)[i] + MFLIMIT <= b.end
    ensures EntryAt(b, table, [p] + ps, i + 1) == EntryAt(b, Enter(b, table, p), ps, i)
  {
    hide Enter, Entry;
    EnteredLater(b, table, p, ps, i);
  }

  /** Of the positions `ps`, the first whose entry is not refused is number `k`, if there is
      one. */
  predicate EndsAt(b: Input, anchor: nat, table: Table, ps: seq<nat>, k: nat, f: Found)
    requires Good(b) && |table| == TableSize(b.kind) && k <= |ps|
    requires forall i :: 0 <= i < |ps| ==> anchor <= ps[i] && ps[i] + MFLIMIT <= b.end
  {
    && (forall i :: 0 <= i < k ==> Refuses(b, anchor, ps[i], EntryAt(b, table, ps, i)))
    && if k == |ps| then f == Found(NoMatch, Entered(b, table, ps, k))
       else
         && !Refuses(b, anchor, ps[k], EntryAt(b, table, ps, k))
         && f == Found(Probe(b, anchor, ps[k], EntryAt(b, table, ps, k)), Entered(b, table, ps, k + 1))
  }

  lemma EndsLater(b: Input, anchor: nat, table: Table, p: nat, ps: seq<nat>, k: nat, f: Found)
    requires Good(b) && |table| == TableSize(b.kind) && k <= |ps| && anchor <= p && p + MFLIMIT <= b.end
    requires forall i :: 0 <= i < |ps| ==> anchor <= ps[i] && ps[i] + MFLIMIT <= b.end
    requires Refuses(b, anchor, p, Entry(b, table, p)) && EndsAt(b, anchor, Enter(b, table, p), ps, k, f)
    ensures EndsAt(b, anchor, table, [p] + ps, k + 1, f)
  {
    hide Refuses, Probe, Enter, Entry, EntryAt, Entered;
    var t, all := Enter(b, table, p), [p] + ps;
    EntryFirst(b, table, all);
    forall i | 0 <= i < k + 1
      ensures Refuses(b, anchor, all[i], EntryAt(b, table, all, i))
    {
      if i > 0 {
        EntryLater(b, table, p, ps, i - 1);
      }
    }
    if k < |ps| {
      EntryLater(b, table, p, ps, k);
      EnteredLater(b, table, p, ps, k + 1);
    } else {
      EnteredLater(b, table, p, ps, k);
    }
  }

  lemma EntryFirst(b: Input, table: Table, ps: seq<nat>)
    requires Good(b) && |table| == TableSize(b.kind) && ps != [] && forall i :: 0 <= i < |ps| ==> ps[i] + MFLIMIT <= b.end
    ensures EntryAt(b, table, ps, 0) == Entry(b, table, ps[0]) && Entered(b, table, ps, 1) == Enter(b, table, ps[0])
  {
    hide Enter, Entry;
    assert Entered(b, table, ps, 0) == table;
  }

  /** A search ends at the first of the positions it probes whose entry is not refused, and
      fails only if there is none. */
  lemma {:induction false} FirstNotRefused(b: Input, anchor: nat, ip: nat, step: nat, nb: nat, table: Table) returns (k: nat)
    requires Good(b) && anchor <= ip && 1 <= step && SKIP_TRIGGER_UNIT <= nb && |table| == TableSize(b.kind)
    ensures var ps := Probes(b.end, ip, step, nb);
            && k <= |ps| && (forall i :: 0 <= i < |ps| ==> ip <= ps[i] && ps[i] + MFLIMIT < b.end)
            && EndsAt(b, anchor, table, ps, k, Search(b, anchor, ip, step, nb, table))
    decreases b.end - ip
  {
    hide Probe, Refuses, Enter, Entry, EndsAt, Entered, EntryAt;
    var ps := Probes(b.end, ip, step, nb);
    ProbesFit(b.end, ip, step, nb);
    if ip + step + MFLIMIT > b.end {
      EndsAtNone(b, anchor, table);
      return 0;
    }
    EntryFirst(b, table, ps);
    RefusedExactly(b, anchor, ip, Entry(b, table, ip));
    if Probe(b, anchor, ip, Entry(b, table, ip)).Match? {
      EndsAtFirst(b, anchor, table, ps);
      return 0;
    }
    var t, rest := Enter(b, table, ip), Probes(b.end, ip + step, nb / SKIP_TRIGGER_UNIT, nb + 1);
    k := FirstNotRefused(b, anchor, ip + step, nb / SKIP_TRIGGER_UNIT, nb + 1, t);
    EndsLater(b, anchor, table, ip, rest, k, Search(b, anchor, ip, step, nb, table));
    k := k + 1;
  }

  lemma EndsAtNone(b: Input, anchor: nat, table: Table)
    requires Good(b) && |table| == TableSize(b.kind)
    ensures EndsAt(b, anchor, table, [], 0, Found(NoMatch, table))
  {
  }

  lemma EndsAtFirst(b: Input, anchor: nat, table: Table, ps: seq<nat>)
    requires Good(b) && |table| == TableSize(b.kind) && ps != []
    requires forall i :: 0 <= i < |ps| ==> anchor <= ps[i] && ps[i] + MFLIMIT <= b.end
    requires !Refuses(b, anchor, ps[0], Entry(b, table, ps[0]))
    ensures EndsAt(b, anchor, table, ps, 0, Found(Probe(b, anchor, ps[0], Entry(b, table, ps[0])), Enter(b, table, ps[0])))
  {
    hide Refuses, Probe, Enter, Entry, EntryAt, Entered;
    EntryFirst(b, table, ps);
  }
}
