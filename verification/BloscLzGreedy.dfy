/** What blosclz_compress finds (c-blosc2/blosc/blosclz.c:176-419), as a function of its
    input alone: at each position a run or what the hash table points at is taken if there is
    one, as far as it goes, and a literal otherwise. */
module BloscLzGreedy {
  import opened Bytes
  import opened BloscLzFormat

  const IP_BOUNDARY: nat := 2
  const TAIL: nat := 12
  const MIN_LIMIT: nat := 66

  /** The length of the stream of a program. */
  function StreamLength(p: Prog): nat {
    match p
    case Start => 0
    case Then(q, Lit(b)) => StreamLength(q) + 1 + |b|
    case Then(q, Match(len, dist)) =>
      StreamLength(q) + 1 + (if len < 9 then 0 else (len - 9) / 255 + 1) + if dist <= MAX_DISTANCE then 1 else 3
  }

  lemma {:induction false} StreamLengthIs(p: Prog)
    requires Legal(p)
    ensures |Stream(p)| == StreamLength(p)
  {
    if p.Then? {
      StreamLengthIs(p.init);
    }
  }

  // ----- The hash table -----

  /** The hash table is 2^log entries, the log depending on the level. */
  function HashLog(level: nat): (log: nat)
    requires 1 <= level <= 9
    ensures 11 <= log <= 14
  {
    [11, 11, 11, 12, 13, 14, 14, 14, 14][level - 1]
  }

  function Pow2(n: nat): (r: nat)
    ensures r > 0
  {
    if n == 0 then 1 else 2 * Pow2(n - 1)
  }

  function Read16(lo: byte, hi: byte): bv16 {
    (lo + 256 * (hi as int)) as bv16
  }

  /** HASH_FUNCTION of three bytes. */
  function Hash(b0: byte, b1: byte, b2: byte, log: nat): (h: nat)
    requires 1 <= log <= 16
    ensures h < Pow2(log)
  {
    var v := Read16(b0, b1);
    (v ^ (Read16(b1, b2) ^ (v >> (16 - log)))) as int % Pow2(log)
  }

  predicate NoCommonBit(a: nat, b: nat)
    requires a < 0x8000_0000 && b < 0x8000_0000
  {
    (a as bv32) & (b as bv32) == 0
  }

  function HashAt(s: seq<byte>, at: nat, level: nat): (h: nat)
    requires at + 2 < |s| && 1 <= level <= 9
    ensures h < Pow2(HashLog(level))
  {
    Hash(s[at], s[at + 1], s[at + 2], HashLog(level))
  }

  /** Positions, cut to 16 bits. */
  type Table = seq<nat>

  function Enter(t: Table, s: seq<byte>, at: nat, level: nat): (u: Table)
    requires at + 2 < |s| && 1 <= level <= 9 && |t| == Pow2(HashLog(level))
    ensures |u| == |t|
  {
    t[HashAt(s, at, level) := at % 0x10000]
  }

  // ----- What is found at a position -----

  /** The byte before and the two after are all the same. */
  predicate IsRun(s: seq<byte>, at: nat)
    requires 1 <= at && at + 2 < |s|
  {
    s[at] == s[at - 1] && s[at - 1] == s[at + 1] && s[at] == s[at + 2]
  }

  /** How many bytes an entry of the table is seen to agree with: three, five if it is far
      off at a high level, or none, which refuses it. */
  function Reach(s: seq<byte>, at: nat, ref: nat, level: nat): (n: nat)
    requires at + 4 < |s|
    ensures n == 0 || n == 3 || n == 5
  {
    if ref >= at || at - ref >= MAX_FARDISTANCE || s[ref] != s[at] || s[ref + 1] != s[at + 1] || s[ref + 2] != s[at + 2] then 0
    else if level < 5 || at - ref < MAX_DISTANCE then 3
    else if s[ref + 3] != s[at + 3] || s[ref + 4] != s[at + 4] then 0
    else 5
  }

  // ----- How far a match goes -----

  /** The first byte from `from` on that differs from the one `dist` before it, or `end`. */
  function FirstDiff(s: seq<byte>, dist: nat, from: nat, end: nat): (f: nat)
    requires dist <= from <= end <= |s|
    ensures from <= f <= end
    decreases end - from
  {
    if from == end || s[from] != s[from - dist] then from else FirstDiff(s, dist, from + 1, end)
  }

  lemma {:induction false} FirstDiffs(s: seq<byte>, dist: nat, from: nat, end: nat)
    requires dist <= from <= end <= |s|
    ensures var f := FirstDiff(s, dist, from, end);
            && (forall k :: from <= k < f ==> s[k] == s[k - dist])
            && (f < end ==> s[f] != s[f - dist])
    decreases end - from
  {
    if from < end && s[from] == s[from - dist] {
      FirstDiffs(s, dist, from + 1, end);
    }
  }

  /** `ip_bound` is the last place that is reached. */
  function Within(s: seq<byte>, ip: nat): nat
    requires IP_BOUNDARY <= |s|
  {
    if ip > |s| - IP_BOUNDARY then |s| - IP_BOUNDARY else ip
  }

  /** Eight bytes at a time, which for a run begin one byte earlier, until the end is near;
      where eight differ, one byte beyond the first that does. */
  function EndFrom(s: seq<byte>, dist: nat, ip: nat): (e: nat)
    requires 1 <= dist < ip <= |s| && 8 <= |s|
    ensures e <= |s| - IP_BOUNDARY
    decreases |s| - ip
  {
    var back := if dist == 1 then 1 else 0;
    if ip >= |s| - 8 then Within(s, ip)
    else (
      var f := FirstDiff(s, dist, ip - back, ip - back + 8);
      if f == ip - back + 8 then EndFrom(s, dist, ip + 8) else Within(s, f + 1)
    )
  }

  /** The end is maximal: the byte before it differs, or the end of the input is near. All
      bytes before that one agree. */
  lemma {:induction false} EndIsMaximal(s: seq<byte>, dist: nat, ip: nat)
    requires 1 <= dist < ip <= |s| && 8 <= |s|
    ensures var e, back := EndFrom(s, dist, ip), if dist == 1 then 1 else 0;
            && (ip <= |s| - IP_BOUNDARY ==> ip - back <= e)
            && (forall k :: ip - back <= k < e - 1 ==> s[k] == s[k - dist])
            && (e >= |s| - 8 || (dist < e && s[e - 1] != s[e - 1 - dist]))
            && (ip < |s| - 8 ==> ip - back < e && (s[ip - back] == s[ip - back - dist] ==> ip - back + 1 < e))
    decreases |s| - ip
  {
    hide FirstDiff;
    var back := if dist == 1 then 1 else 0;
    if ip < |s| - 8 {
      FirstDiffs(s, dist, ip - back, ip - back + 8);
      if FirstDiff(s, dist, ip - back, ip - back + 8) == ip - back + 8 {
        EndIsMaximal(s, dist, ip + 8);
      }
    }
  }

  /** Where the match found at `at`, which `n` bytes are known of, ends. */
  function MatchEnd(s: seq<byte>, at: nat, dist: nat, n: nat): nat
    requires 1 <= dist <= at && at + TAIL < |s| && 3 <= n <= 5
  {
    EndFrom(s, dist, at + n)
  }

  lemma MatchEnds(s: seq<byte>, at: nat, dist: nat, n: nat)
    requires 1 <= dist <= at && at + TAIL < |s| && (n == 3 || n == 5) && (dist == 1 ==> n == 3)
    requires forall k :: at <= k < at + n ==> s[k] == s[k - dist]
    ensures var e := MatchEnd(s, at, dist, n);
            && at + 4 <= e <= |s| - IP_BOUNDARY && dist < e
            && (forall k :: at <= k < e - 1 ==> s[k] == s[k - dist])
            && (e >= |s| - 8 || s[e - 1] != s[e - 1 - dist])
  {
    EndIsMaximal(s, dist, at + n);
  }

  // ----- The whole parse -----

  /** Where the compressor is: the instructions written, the literals of the open run, and
      the table. */
  datatype State = State(ip: nat, p: Prog, copy: nat, table: Table)

  predicate Sound(s: seq<byte>, level: nat, st: State) {
    && 1 <= level <= 9 && |st.table| == Pow2(HashLog(level))
    && 2 <= st.ip <= |s| && st.copy <= st.ip && st.copy < MAX_COPY
  }

  /** The instructions with the open run closed. */
  function ClosedRun(s: seq<byte>, st: State): Prog
    requires st.copy <= st.ip <= |s|
  {
    if st.copy > 0 then Then(st.p, Lit(s[st.ip - st.copy..st.ip])) else st.p
  }

  /** The bytes of the output: the control byte of the open run comes before it. */
  function Length(st: State): nat {
    StreamLength(st.p) + 1 + st.copy
  }

  function Literal(s: seq<byte>, st: State, table: Table): State
    requires st.ip < |s| && st.copy <= st.ip
  {
    var next := State(st.ip + 1, st.p, st.copy + 1, table);
    if st.copy + 1 == MAX_COPY then State(st.ip + 1, ClosedRun(s, next), 0, table) else next
  }

  /** A match has been found `dist` bytes back. Its last byte but one and its last enter the
      table. */
  function Matched(s: seq<byte>, level: nat, st: State, dist: nat, n: nat, table: Table): State
    requires Sound(s, level, st) && 1 <= dist <= st.ip && st.ip + TAIL < |s| && 3 <= n <= 5 && |table| == |st.table|
  {
    var e := MatchEnd(s, st.ip, dist, n);
    if e < st.ip + 4 then st
    else
      State(e - 1, Then(ClosedRun(s, st), Match(e - 1 - st.ip, dist)), 0, Enter(Enter(table, s, e - 3, level), s, e - 2, level))
  }

  /** What is found at the position: the distance, how many bytes are known to agree, and the
      table afterwards; nothing if the distance is 0. */
  datatype Finding = Finding(dist: nat, n: nat, table: Table)

  function Find(s: seq<byte>, level: nat, accel: nat, st: State): (f: Finding)
    requires Sound(s, level, st) && st.ip + TAIL < |s| < 0x8000_0000 && accel < 0x8000_0000
    ensures f.dist > 0 ==> f.dist <= st.ip && 3 <= f.n <= 5
    ensures |f.table| == |st.table|
  {
    if IsRun(s, st.ip) then Finding(1, 3, st.table)
    else
      var h := HashAt(s, st.ip, level);
      var ref := st.table[h];
      var table := if ref < st.ip && NoCommonBit(st.ip - ref, accel) then st.table[h := st.ip % 0x10000] else st.table;
      var n := Reach(s, st.ip, ref, level);
      if n == 0 then Finding(0, 3, table) else Finding(st.ip - ref, n, table)
  }

  /** Room for the next literal, or for a match in the worst case. */
  predicate HasRoom(s: seq<byte>, st: State, f: Finding, limit: nat)
    requires st.copy <= st.ip && st.ip + TAIL < |s| && (f.dist > 0 ==> f.dist <= st.ip && 3 <= f.n <= 5)
  {
    if f.dist == 0 then Length(st) + 2 <= limit
    else
      var e := MatchEnd(s, st.ip, f.dist, f.n);
      StreamLength(ClosedRun(s, st)) + (e - 3 - st.ip) / 255 + 6 <= limit
  }

  function Turn(s: seq<byte>, level: nat, accel: nat, st: State): State
    requires Sound(s, level, st) && st.ip + TAIL < |s| < 0x8000_0000 && accel < 0x8000_0000
  {
    var f := Find(s, level, accel, st);
    if f.dist == 0 then Literal(s, st, f.table) else Matched(s, level, st, f.dist, f.n, f.table)
  }

  /** What is found is true of the input. */
  lemma FoundAgrees(s: seq<byte>, level: nat, accel: nat, st: State)
    requires Sound(s, level, st) && st.ip + TAIL < |s| < 0x8000_0000 && accel < 0x8000_0000
    ensures var f := Find(s, level, accel, st);
            && (f.dist > 0 ==> f.dist < MAX_FARDISTANCE && (f.n == 3 || f.n == 5) && (f.dist == 1 ==> f.n == 3))
            && (f.dist > 0 ==> forall k :: st.ip <= k < st.ip + f.n ==> s[k] == s[k - f.dist])
  {
    hide HashAt, NoCommonBit;
    var f := Find(s, level, accel, st);
    if f.dist > 0 {
      forall k | st.ip <= k < st.ip + f.n
        ensures s[k] == s[k - f.dist]
      {
        assert k == st.ip || k == st.ip + 1 || k == st.ip + 2 || k == st.ip + 3 || k == st.ip + 4;
      }
    }
  }

  lemma TurnGoesOn(s: seq<byte>, level: nat, accel: nat, st: State)
    requires Sound(s, level, st) && st.ip + TAIL < |s| < 0x8000_0000 && accel < 0x8000_0000
    ensures var t := Turn(s, level, accel, st); Sound(s, level, t) && st.ip < t.ip
    ensures Find(s, level, accel, st).dist > 0 ==> st.ip + 3 <= Turn(s, level, accel, st).ip
  {
    hide Find, MatchEnd, HashAt;
    FoundAgrees(s, level, accel, st);
    var f := Find(s, level, accel, st);
    if f.dist > 0 {
      MatchEnds(s, st.ip, f.dist, f.n);
    }
  }

  /** How the compressor gets on: as far as it can, or to a place for which there is no room. */
  datatype Walked = NoRoom(st: State) | Arrived(st: State)

  /** The main loop. */
  function Walk(s: seq<byte>, level: nat, accel: nat, limit: nat, st: State): (w: Walked)
    requires Sound(s, level, st) && |s| < 0x8000_0000 && accel < 0x8000_0000
    ensures Sound(s, level, w.st)
    decreases |s| - st.ip
  {
    if st.ip + TAIL < |s| then
      if HasRoom(s, st, Find(s, level, accel, st), limit) then
        (TurnGoesOn(s, level, accel, st); Walk(s, level, accel, limit, Turn(s, level, accel, st)))
      else NoRoom(st)
    else Arrived(st)
  }

  /** The rest of the input, as literals. */
  function Rest(s: seq<byte>, limit: nat, st: State): (w: Walked)
    requires st.copy <= st.ip <= |s| && st.copy < MAX_COPY
    ensures w.st.copy <= w.st.ip <= |s| && w.st.copy < MAX_COPY && (w.Arrived? ==> w.st.ip == |s|)
    decreases |s| - st.ip
  {
    if st.ip < |s| then
      if Length(st) + 2 <= limit then Rest(s, limit, Literal(s, st, st.table)) else NoRoom(st)
    else Arrived(st)
  }

  function Beginning(level: nat): State
    requires 1 <= level <= 9
  {
    State(2, Start, 2, seq(Pow2(HashLog(level)), _ => 0))
  }

  /** What the compressor makes of its input: the instructions, unless they do not fit. */
  datatype Parsed = GivesUp | Whole(p: Prog)

  /** What is found fits the limit. */
  lemma {:induction false} WalkFits(s: seq<byte>, level: nat, accel: nat, limit: nat, st: State)
    requires Sound(s, level, st) && |s| < 0x8000_0000 && accel < 0x8000_0000 && Length(st) <= limit
    ensures var w := Walk(s, level, accel, limit, st); w.Arrived? ==> Length(w.st) <= limit
    decreases |s| - st.ip
  {
    hide Find, Turn, HasRoom;
    if st.ip + TAIL < |s| && HasRoom(s, st, Find(s, level, accel, st), limit) {
      TurnGoesOn(s, level, accel, st);
      TurnFits(s, level, accel, limit, st);
      WalkFits(s, level, accel, limit, Turn(s, level, accel, st));
    }
  }

  lemma TurnFits(s: seq<byte>, level: nat, accel: nat, limit: nat, st: State)
    requires Sound(s, level, st) && st.ip + TAIL < |s| < 0x8000_0000 && accel < 0x8000_0000
    requires HasRoom(s, st, Find(s, level, accel, st), limit)
    ensures Length(Turn(s, level, accel, st)) <= limit
  {
    hide Find, MatchEnd, Enter;
    FoundAgrees(s, level, accel, st);
    var f := Find(s, level, accel, st);
    if f.dist > 0 {
      MatchEnds(s, st.ip, f.dist, f.n);
    }
  }

  lemma {:induction false} RestFits(s: seq<byte>, limit: nat, st: State)
    requires st.copy <= st.ip <= |s| && st.copy < MAX_COPY && Length(st) <= limit
    ensures var w := Rest(s, limit, st); w.Arrived? ==> StreamLength(ClosedRun(s, w.st)) <= limit
    decreases |s| - st.ip
  {
    if st.ip < |s| && Length(st) + 2 <= limit {
      RestFits(s, limit, Literal(s, st, st.table));
    }
  }

  lemma ParseFits(s: seq<byte>, level: nat, accel: nat, limit: int)
    requires 1 <= level <= 9 && |s| < 0x8000_0000 && accel < 0x8000_0000
    ensures var found := Parse(s, level, accel, limit); found.Whole? ==> StreamLength(found.p) <= limit
  {
    hide Walk, Rest, HashLog;
    if MIN_LIMIT <= limit && |s| >= 4 {
      WalkFits(s, level, accel, limit, Beginning(level));
      var w := Walk(s, level, accel, limit, Beginning(level));
      if w.Arrived? {
        RestFits(s, limit, w.st);
      }
    }
  }

  function Parse(s: seq<byte>, level: nat, accel: nat, limit: int): Parsed
    requires 1 <= level <= 9 && |s| < 0x8000_0000 && accel < 0x8000_0000
  {
    if limit < MIN_LIMIT || |s| < 4 then GivesUp
    else
      match Walk(s, level, accel, limit, Beginning(level))
      case NoRoom(_) => GivesUp
      case Arrived(st) => (
        match Rest(s, limit, st)
        case NoRoom(_) => GivesUp
        case Arrived(end) => Whole(ClosedRun(s, end))
      )
  }
}
