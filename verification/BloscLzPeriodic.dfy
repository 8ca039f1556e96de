/** Inputs that repeat are compressed: what blosclz_compress finds in them
    (c-blosc2/blosc/blosclz.c:226-407). */
module BloscLzPeriodic {
  import opened Bytes
  import opened BloscLzFormat
  import opened BloscLzGreedy

  /** The input repeats after `d` bytes. */
  ghost predicate Periodic(s: seq<byte>, d: nat) {
    1 <= d <= |s| && forall k :: d <= k < |s| ==> s[k] == s[k - d]
  }

  /** No two of the first `d` positions have the same place in the hash table. */
  ghost predicate Apart(s: seq<byte>, level: nat, d: nat) {
    && 1 <= level <= 9 && d + 2 < |s|
    && forall i: nat, j: nat :: i < j < d ==> HashAt(s, i, level) != HashAt(s, j, level)
  }

  /** Where the repetition is noticed. */
  function Noticed(d: nat): nat {
    if d < 2 then 2 else d
  }

  /** What the output takes: the first period as literals, the rest as one match, and a few
      literals at the end. */
  function Bound(n: nat, d: nat): nat {
    Noticed(d) + Noticed(d) / 32 + n / 255 + 19
  }

  /** Only literals so far; the places of the positions to come are as they were. */
  ghost predicate Quiet(s: seq<byte>, level: nat, d: nat, st: State) {
    && Sound(s, level, st) && Apart(s, level, d) && st.ip <= Noticed(d)
    && Length(st) == st.ip + 1 + st.ip / 32 && st.copy == st.ip % 32
    && st.table[HashAt(s, 0, level)] == 0
    && forall j: nat :: st.ip <= j < d ==> st.table[HashAt(s, j, level)] == 0
  }

  lemma BeginsQuiet(s: seq<byte>, level: nat, d: nat)
    requires Apart(s, level, d)
    ensures Quiet(s, level, d, Beginning(level))
  {
    hide HashAt, HashLog;
  }

  lemma SameHash(s: seq<byte>, level: nat, i: nat, j: nat)
    requires 1 <= level <= 9 && i + 2 < |s| && j + 2 < |s|
    requires s[i] == s[j] && s[i + 1] == s[j + 1] && s[i + 2] == s[j + 2]
    ensures HashAt(s, i, level) == HashAt(s, j, level)
  {
    hide Hash;
  }

  /** In the first period nothing is found. */
  lemma NothingYet(s: seq<byte>, level: nat, accel: nat, d: nat, st: State)
    requires Quiet(s, level, d, st) && st.ip < d && st.ip + TAIL < |s| < 0x8000_0000 && accel < 0x8000_0000
    ensures Find(s, level, accel, st).dist == 0
    ensures Quiet(s, level, d, Turn(s, level, accel, st)) && Turn(s, level, accel, st).ip == st.ip + 1
  {
    hide HashAt, HashLog, NoCommonBit;
    var p := st.ip;
    if IsRun(s, p) {
      SameHash(s, level, p - 1, p);
    }
    if s[0] == s[p] && s[1] == s[p + 1] && s[2] == s[p + 2] {
      SameHash(s, level, 0, p);
    }
    LiteralGrows(s, st, Find(s, level, accel, st).table);
  }

  lemma LiteralGrows(s: seq<byte>, st: State, table: Table)
    requires st.ip < |s| && st.copy <= st.ip && st.copy == st.ip % 32 && Length(st) == st.ip + 1 + st.ip / 32
    ensures var t := Literal(s, st, table); t.ip == st.ip + 1 && t.copy == t.ip % 32 && Length(t) == t.ip + 1 + t.ip / 32 && t.table == table
  {
    NextRemainder(st.ip);
    LiteralLength(s, st, table);
  }

  lemma NextRemainder(n: nat)
    ensures if n % 32 == 31 then (n + 1) % 32 == 0 && (n + 1) / 32 == n / 32 + 1 else (n + 1) % 32 == n % 32 + 1 && (n + 1) / 32 == n / 32
  {
  }

  lemma LiteralLength(s: seq<byte>, st: State, table: Table)
    requires st.ip < |s| && st.copy <= st.ip && st.copy < MAX_COPY
    ensures var t := Literal(s, st, table);
            && t.ip == st.ip + 1 && t.table == table
            && (if st.copy + 1 == MAX_COPY then t.copy == 0 && Length(t) == Length(st) + 2 else t.copy == st.copy + 1 && Length(t) == Length(st) + 1)
  {
  }

  /** At the beginning of the second it is. */
  lemma NowFound(s: seq<byte>, level: nat, accel: nat, d: nat, st: State)
    requires Periodic(s, d) && d < MAX_FARDISTANCE
    requires Quiet(s, level, d, st) && st.ip == Noticed(d) && st.ip + TAIL < |s| < 0x8000_0000 && accel < 0x8000_0000
    ensures Find(s, level, accel, st).dist == d
  {
    hide HashAt, HashLog, NoCommonBit;
    if d > 1 {
      assert s[d] == s[0] && s[d + 1] == s[1] && s[d + 2] == s[2] && s[d + 3] == s[3] && s[d + 4] == s[4];
      if IsRun(s, d) {
        SameHash(s, level, d - 1, 0);
      }
      SameHash(s, level, 0, d);
      assert Reach(s, d, 0, level) > 0;
    } else {
      assert s[1] == s[0] && s[2] == s[1] && s[3] == s[2] && s[4] == s[3];
      assert IsRun(s, 2);
    }
  }

  /** The match goes to the end, but for the bytes that become literals at any rate. */
  lemma GoesToTheEnd(s: seq<byte>, level: nat, accel: nat, d: nat, st: State)
    requires Periodic(s, d) && Sound(s, level, st) && st.ip + TAIL < |s| < 0x8000_0000 && accel < 0x8000_0000
    requires Find(s, level, accel, st).dist == d
    ensures var f := Find(s, level, accel, st); |s| - 8 <= MatchEnd(s, st.ip, d, f.n) <= |s| - 2 && d <= st.ip && 3 <= f.n <= 5
  {
    hide Find;
    FoundAgrees(s, level, accel, st);
    MatchEnds(s, st.ip, d, Find(s, level, accel, st).n);
  }

  lemma {:induction false} WalkQuiet(s: seq<byte>, level: nat, accel: nat, limit: nat, d: nat, st: State)
    requires Periodic(s, d) && d < MAX_FARDISTANCE && Quiet(s, level, d, st)
    requires Noticed(d) + TAIL < |s| < 0x8000_0000 && accel < 0x8000_0000 && Bound(|s|, d) <= limit
    ensures var w := Walk(s, level, accel, limit, st);
            && w.Arrived? && |s| - 9 <= w.st.ip && w.st.copy == 0 && w.st.p.Then?
            && Length(w.st) + (|s| - w.st.ip) <= Bound(|s|, d)
    decreases Noticed(d) - st.ip
  {
    hide Find, HashAt, HashLog, MatchEnd, Quiet;
    QuietMeans(s, level, d, st);
    TurnGoesOn(s, level, accel, st);
    if st.ip < d {
      NothingYet(s, level, accel, d, st);
      LessLiterals(st.ip, Noticed(d));
      WalkQuiet(s, level, accel, limit, d, Turn(s, level, accel, st));
    } else {
      NowFound(s, level, accel, d, st);
      GoesToTheEnd(s, level, accel, d, st);
      MatchedLength(s, level, accel, d, st);
    }
  }

  lemma QuietMeans(s: seq<byte>, level: nat, d: nat, st: State)
    requires Quiet(s, level, d, st)
    ensures Sound(s, level, st) && st.ip <= Noticed(d) && Length(st) == st.ip + 1 + st.ip / 32
  {
  }

  lemma LessLiterals(a: nat, b: nat)
    requires a <= b
    ensures a / 32 <= b / 32
  {
  }

  lemma MatchedLength(s: seq<byte>, level: nat, accel: nat, d: nat, st: State)
    requires Sound(s, level, st) && st.ip + TAIL < |s| < 0x8000_0000 && accel < 0x8000_0000 && d > 0
    requires Find(s, level, accel, st).dist == d && |s| - 8 <= MatchEnd(s, st.ip, d, Find(s, level, accel, st).n) <= |s| - 2
    ensures var f, t := Find(s, level, accel, st), Turn(s, level, accel, st);
            && |s| - 9 <= t.ip <= |s| - 3 && t.copy == 0 && t.p.Then?
            && Length(t) <= Length(st) + |s| / 255 + 6
            && (forall limit: nat :: Length(st) + |s| / 255 + 6 <= limit ==> HasRoom(s, st, f, limit))
  {
    hide Find, MatchEnd, Enter;
    var f, q := Find(s, level, accel, st), ClosedRun(s, st);
    var len := MatchEnd(s, st.ip, d, f.n) - 1 - st.ip;
    FoundAgrees(s, level, accel, st);
    MatchEnds(s, st.ip, d, f.n);
    assert StreamLength(q) <= Length(st);
    assert StreamLength(Then(q, Match(len, d))) <= StreamLength(q) + 5 + len / 255;
    LessQuotient(len, |s|);
  }

  lemma LessQuotient(a: nat, b: nat)
    requires a <= b
    ensures a / 255 <= b / 255
  {
  }

  lemma {:induction false} RestFits(s: seq<byte>, limit: nat, st: State)
    requires st.copy <= st.ip <= |s| && st.copy + (|s| - st.ip) < MAX_COPY && Length(st) + (|s| - st.ip) + 1 <= limit
    requires st.p.Then?
    ensures var w := Rest(s, limit, st); w.Arrived? && 0 < StreamLength(ClosedRun(s, w.st)) <= Length(st) + (|s| - st.ip)
    decreases |s| - st.ip
  {
    if st.ip < |s| {
      RestFits(s, limit, Literal(s, st, st.table));
    }
  }

  /** An input that repeats after `d` bytes, whose first `d` positions have places of their
      own in the hash table, is compressed to little more than `d` bytes, at every level and
      with every acceleration, if the output may be that long. */
  lemma PeriodicCompresses(s: seq<byte>, level: nat, accel: nat, limit: nat, d: nat)
    requires Periodic(s, d) && d < MAX_FARDISTANCE && Apart(s, level, d)
    requires Noticed(d) + TAIL < |s| < 0x8000_0000 && accel < 0x8000_0000 && MIN_LIMIT <= limit && Bound(|s|, d) < limit
    ensures var found := Parse(s, level, accel, limit); found.Whole? && 0 < StreamLength(found.p) <= Bound(|s|, d)
  {
    hide Walk, Rest, HashAt, HashLog, Beginning, Quiet, Bound;
    BeginsQuiet(s, level, d);
    QuietMeans(s, level, d, Beginning(level));
    WalkQuiet(s, level, accel, limit, d, Beginning(level));
    RestFits(s, limit, Walk(s, level, accel, limit, Beginning(level)).st);
  }

  /** A run of a single byte needs nothing of the hash table. */
  lemma RunCompresses(s: seq<byte>, x: byte, level: nat, accel: nat, limit: nat)
    requires 1 <= level <= 9 && (forall k :: 0 <= k < |s| ==> s[k] == x)
    requires 14 < |s| < 0x8000_0000 && accel < 0x8000_0000 && MIN_LIMIT <= limit && |s| / 255 + 21 < limit
    ensures var found := Parse(s, level, accel, limit); found.Whole? && 0 < StreamLength(found.p) <= |s| / 255 + 21
  {
    hide Parse, HashAt;
    PeriodicCompresses(s, level, accel, limit, 1);
  }
}
