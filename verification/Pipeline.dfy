/** The filter pipeline of a block and its cycling buffers
    (c-blosc2/blosc/blosc.c:548-620, 753-824). */
module Pipeline {
  import opened Bytes
  import opened Shuffle
  import opened Bitshuffle
  import opened Delta
  import opened Filters

  /** Filter codes are NOFILTER, SHUFFLE, BITSHUFFLE and DELTA; a code from 5 on is one
      that Blosc does not know. TRUNC_PREC, which loses bits on purpose, is code 4. */
  predicate Slots(filters: seq<nat>) {
    |filters| == MAX_FILTERS && forall i :: 0 <= i < |filters| ==> filters[i] != 4
  }

  predicate Known(filters: seq<nat>) {
    |filters| == MAX_FILTERS && forall i :: 0 <= i < |filters| ==> filters[i] <= DELTA
  }

  /** The delta filter comes before every other, and the bit shuffle after. */
  predicate Ordered(filters: seq<nat>) {
    && |filters| == MAX_FILTERS
    && (forall i, j :: 0 <= j < i < |filters| && filters[i] == DELTA ==> filters[j] == NOFILTER)
    && (forall i, j :: 0 <= i < j < |filters| && filters[i] == BITSHUFFLE ==> filters[j] == NOFILTER)
  }

  /** No filter drops bytes of a block of `n` bytes. */
  predicate KeepsAll(filters: seq<nat>, ts: nat, n: nat)
    requires ts > 0
  {
    && (BITSHUFFLE in filters ==> Lossless(ts, n))
    && (DELTA in filters ==> n % WordSize(ts) == 0)
  }

  /** What a filter makes of the block `s` at `offset` of the chunk `ref`. */
  ghost predicate Filtered(f: nat, ts: nat, ref: seq<byte>, offset: nat, s: seq<byte>, d: seq<byte>)
    requires ts > 0
  {
    match f
    case 0 => d == s
    case 1 => d == Shuffled(ts, s)
    case 2 => BitShuffled(ts, s, d)
    case 3 =>
      if offset == 0 then DeltaOfFirst(ref, s, d, WordSize(ts)) else DeltaOfOther(ref, s, d, WordSize(ts))
    case _ => false
  }

  /** The block before the first filter, between any two, and after the last. */
  ghost predicate Stages(filters: seq<nat>, ts: nat, ref: seq<byte>, offset: nat, st: seq<seq<byte>>)
    requires ts > 0
  {
    && |filters| == MAX_FILTERS && 0 < |st| <= MAX_FILTERS + 1
    && forall i :: 0 <= i < |st| - 1 ==> Filtered(filters[i], ts, ref, offset, st[i], st[i + 1])
  }

  // ----- Compression -----

  /** One round of the switch in pipeline_c: false for a filter Blosc does not know. */
  method ApplyFilter(f: nat, ts: nat, bsize: nat, chunk: array<byte>, offset: nat,
                     src: array<byte>, sp: nat, dst: array<byte>, tmp: array<byte>)
    returns (ok: bool)
    requires ts > 0 && f != 4 && f != NOFILTER
    requires sp + bsize <= src.Length && bsize <= dst.Length && bsize <= tmp.Length && bsize <= chunk.Length
    requires src != dst && tmp != dst && tmp != src && chunk != dst && chunk != tmp
    requires f == DELTA && offset == 0 ==> WordSize(ts) <= bsize
    modifies dst, tmp
    ensures ok <==> f <= DELTA
    ensures ok ==> Filtered(f, ts, chunk[..], offset, src[sp..sp + bsize], dst[0..bsize])
  {
    hide BitShuffled, DeltaOfFirst, DeltaOfOther, Shuffled, Transposed, Before, WordSize;
    ok := true;
    if f == SHUFFLE {
      NothingBefore(ts, src[..], sp, dst[..], 0, bsize);
      ShuffleGeneric(ts, 0, bsize, src, sp, dst, 0);
    } else if f == BITSHUFFLE {
      var r := BitShuffle(ts, bsize, src, sp, dst, 0, tmp);
    } else if f == DELTA {
      DeltaEncoder(chunk, offset, bsize, ts, src, sp, dst, 0);
    } else {
      ok := false;
    }
  }

  lemma NothingBefore(ts: nat, src: seq<byte>, sp: nat, dst: seq<byte>, dp: nat, n: nat)
    requires ts > 0 && sp + n <= |src| && dp + n <= |dst|
    ensures Remainder(ts, n) <= n && Elements(ts, 0) == 0
    ensures var whole := n - Remainder(ts, n);
            && Before(src[sp..sp + whole], dst[dp..dp + whole], Elements(ts, n), ts, 0, Elements(ts, 0))
            && Before(src[sp..sp + whole], dst[dp..dp + whole], ts, Elements(ts, n), Elements(ts, 0), 0)
  {
    ElementsMake(ts, n);
  }

  /** pipeline_c: the block ends up in one of the buffers, or stays where it is when no
      filter is active. */
  method PipelineC(filters: seq<nat>, ts: nat, bsize: nat, chunk: array<byte>, offset: nat,
                   dest: array<byte>, tmp: array<byte>, tmp2: array<byte>)
    returns (ok: bool, out: array<byte>, at: nat, ghost st: seq<seq<byte>>)
    requires ts > 0 && Slots(filters) && offset + bsize <= chunk.Length
    requires bsize <= dest.Length && bsize <= tmp.Length && bsize <= tmp2.Length
    requires chunk != dest && chunk != tmp && chunk != tmp2 && dest != tmp && dest != tmp2 && tmp != tmp2
    requires DELTA in filters && offset == 0 ==> WordSize(ts) <= bsize
    modifies dest, tmp, tmp2
    ensures ok <==> Known(filters)
    ensures ok ==>
              && Stages(filters, ts, chunk[..], offset, st) && |st| == MAX_FILTERS + 1
              && st[0] == chunk[offset..offset + bsize]
              && at + bsize <= out.Length && st[MAX_FILTERS] == out[at..at + bsize]
              && (out == dest || out == tmp || out == chunk)
  {
    hide Filtered, WordSize;
    var src := chunk;
    var sp: nat := offset;
    var dst, spare := dest, tmp;
    st := [chunk[offset..offset + bsize]];
    for i := 0 to MAX_FILTERS
      invariant |st| == i + 1 && Stages(filters, ts, chunk[..], offset, st)
      invariant st[0] == chunk[offset..offset + bsize]
      invariant sp + bsize <= src.Length && st[i] == src[sp..sp + bsize]
      invariant (src == chunk && dst == dest && spare == tmp) || (src == dest && dst == tmp && spare == dest)
                || (src == tmp && dst == dest && spare == tmp)
      invariant forall j :: 0 <= j < i ==> filters[j] <= DELTA
    {
      if filters[i] != NOFILTER {
        ok := ApplyFilter(filters[i], ts, bsize, chunk, offset, src, sp, dst, tmp2);
        if !ok {
          return false, chunk, 0, st;
        }
        st := st + [dst[0..bsize]];
        src, sp := dst, 0;
        dst := spare;
        spare := src;
      } else {
        NoFilter(ts, chunk[..], offset, st[i]);
        st := st + [st[i]];
      }
    }
    return true, src, sp, st;
  }

  lemma NoFilter(ts: nat, ref: seq<byte>, offset: nat, s: seq<byte>)
    requires ts > 0
    ensures Filtered(NOFILTER, ts, ref, offset, s, s)
  {
  }

  // ----- Decompression -----

  /** The filter that is undone next, when those from `current` on are. */
  function NextFilter(filters: seq<nat>, current: nat): (f: nat)
    requires current <= |filters|
  {
    if current == 0 then NOFILTER
    else if filters[current - 1] != NOFILTER then filters[current - 1]
    else NextFilter(filters, current - 1)
  }

  /** next_filter. */
  method FindNext(filters: seq<nat>, current: nat) returns (f: nat)
    requires current <= |filters|
    ensures f == NextFilter(filters, current)
  {
    var i: nat := current;
    while i > 0
      invariant i <= current && NextFilter(filters, current) == NextFilter(filters, i)
    {
      i := i - 1;
      if filters[i] != NOFILTER {
        return filters[i];
      }
    }
    return NOFILTER;
  }

  /** The slot of the first active filter, or -1: it is undone last. */
  ghost predicate IsLast(filters: seq<nat>, k: int) {
    && -1 <= k < |filters|
    && (k >= 0 ==> filters[k] != NOFILTER)
    && forall i :: 0 <= i < |filters| && (k == -1 || i < k) ==> filters[i] == NOFILTER
  }

  /** last_filter. */
  method LastFilter(filters: seq<nat>) returns (k: int)
    ensures IsLast(filters, k)
  {
    k := -1;
    var i := |filters|;
    while i > 0
      invariant 0 <= i <= |filters| && (k == -1 || i <= k < |filters|)
      invariant k >= 0 ==> filters[k] != NOFILTER
      invariant forall j :: i <= j < |filters| && (k == -1 || j < k) ==> filters[j] == NOFILTER
    {
      i := i - 1;
      if filters[i] != NOFILTER {
        k := i;
      }
    }
  }

  /** Undoing the shuffles gives the block back. */
  lemma Unfiltered(f: nat, ts: nat, ref: seq<byte>, offset: nat, s: seq<byte>, d: seq<byte>, x: seq<byte>)
    requires ts > 0 && Filtered(f, ts, ref, offset, s, d) && |s| == |d|
    requires (f == SHUFFLE && x == Unshuffled(ts, d)) || (f == BITSHUFFLE && BitShuffled(ts, x, d) && Lossless(ts, |d|))
    ensures x == s
  {
    hide BitShuffled, Shuffled, Unshuffled, Lossless;
    if f == SHUFFLE {
      UnshuffleShuffle(ts, s);
    } else {
      BitShuffleInjective(ts, s, x, d);
    }
  }

  lemma Undelta(ts: nat, ref: seq<byte>, offset: nat, s: seq<byte>, d: seq<byte>, x: seq<byte>, first: seq<byte>)
    requires ts > 0 && Filtered(DELTA, ts, ref, offset, s, d) && |s| == |d| && |s| % WordSize(ts) == 0
    requires |s| <= |ref| && first == ref[..|s|]
    requires if offset == 0 then s == first && UndoneFirst(d, x, WordSize(ts)) else UndoneOther(first, d, x, WordSize(ts))
    ensures x == s
  {
    hide XorAll;
    var n := |s|;
    if offset == 0 {
      assert ref[..n - WordSize(ts)] == s[..n - WordSize(ts)] && ref[..WordSize(ts)] == s[..WordSize(ts)];
      assert DeltaOfFirst(s, s, d, WordSize(ts));
      FirstRoundTrip(s, d, x, WordSize(ts));
    } else {
      assert first[..n] == ref[..n];
      assert DeltaOfOther(first, s, d, WordSize(ts));
      OtherRoundTrip(first, s, d, x, WordSize(ts));
    }
  }

  lemma FilteredSize(f: nat, ts: nat, ref: seq<byte>, offset: nat, s: seq<byte>, d: seq<byte>)
    requires ts > 0 && Filtered(f, ts, ref, offset, s, d)
    ensures |d| == |s|
  {
  }

  lemma {:induction false} StagesSize(filters: seq<nat>, ts: nat, ref: seq<byte>, offset: nat, st: seq<seq<byte>>, i: nat)
    requires ts > 0 && Stages(filters, ts, ref, offset, st) && i < |st|
    ensures |st[i]| == |st[0]|
  {
    hide Filtered;
    if i > 0 {
      StagesSize(filters, ts, ref, offset, st, i - 1);
      FilteredSize(filters[i - 1], ts, ref, offset, st[i - 1], st[i]);
    }
  }

  /** One round of the switch in pipeline_d: a block that is not a difference is undone
      from one buffer into another, a difference where it lies. */
  method UndoFilter(f: nat, ts: nat, bsize: nat, dest: array<byte>, offset: nat,
                    src: array<byte>, dst: array<byte>, dp: nat, spare: array<byte>,
                    ghost ref: seq<byte>, ghost s: seq<byte>, ghost d: seq<byte>)
    requires ts > 0 && (f == SHUFFLE || f == BITSHUFFLE) && Filtered(f, ts, ref, offset, s, d)
    requires |s| == |d| == bsize && (f == BITSHUFFLE ==> Lossless(ts, bsize) && spare != src)
    requires bsize <= src.Length && bsize <= spare.Length && dp + bsize <= dst.Length
    requires src != dst && spare != dst && src[0..bsize] == d
    modifies dst, spare
    ensures dst[dp..dp + bsize] == s
    ensures forall k :: 0 <= k < dst.Length && !(dp <= k < dp + bsize) ==> dst[k] == old(dst[k])
    ensures f == SHUFFLE ==> spare[..] == old(spare[..])
  {
    hide Filtered, BitShuffled, Shuffled, Unshuffled, Transposed, Before, Lossless;
    if f == SHUFFLE {
      ghost var before := dst[..];
      NothingBefore(ts, src[..], 0, dst[..], dp, bsize);
      UnshuffleGeneric(ts, 0, bsize, src, 0, dst, dp);
      SameOutside(before, dst[..], dp, bsize, bsize);
    } else {
      var r := BitUnshuffle(ts, bsize, src, 0, dst, dp, spare);
    }
    Unfiltered(f, ts, ref, offset, s, d, dst[dp..dp + bsize]);
  }

  /** The difference is undone in place. */
  method UndoDelta(ts: nat, bsize: nat, dest: array<byte>, offset: nat,
                   ghost ref: seq<byte>, ghost s: seq<byte>, ghost d: seq<byte>)
    requires ts > 0 && Filtered(DELTA, ts, ref, offset, s, d) && |s| == |d| == bsize && bsize % WordSize(ts) == 0
    requires offset + bsize <= dest.Length && dest[offset..offset + bsize] == d && bsize <= |ref|
    requires if offset == 0 then s == ref[..bsize] && WordSize(ts) <= bsize
             else bsize <= offset && dest[..bsize] == ref[..bsize]
    modifies dest
    ensures dest[offset..offset + bsize] == s
    ensures forall k :: 0 <= k < dest.Length && !(offset <= k < offset + bsize) ==> dest[k] == old(dest[k])
  {
    hide Filtered, WordSize, UndoneFirst, UndoneOther;
    DeltaDecoder(dest, offset, bsize, ts);
    assert offset == 0 ==> dest[..bsize] == dest[offset..offset + bsize] && old(dest[..bsize]) == d;
    assert offset > 0 ==> dest[..bsize] == ref[..bsize];
    Undelta(ts, ref, offset, s, d, dest[offset..offset + bsize], ref[..bsize]);
  }

  /** Where the block is when the filters from slot `i` on are undone: in its place if
      only the delta filter is left, and otherwise in a buffer, from which the next
      filter goes to another. Two buffers take turns after the first one. */
  ghost predicate Located(filters: seq<nat>, i: nat, s: seq<byte>, dest: array<byte>, offset: nat,
                          src: array<byte>, dst: array<byte>, dp: nat, spare: array<byte>,
                          t1: array<byte>, t2: array<byte>, t3: array<byte>)
    requires i <= |filters|
    reads dest, src
  {
    if NextFilter(filters, i) == DELTA then offset + |s| <= dest.Length && dest[offset..offset + |s|] == s
    else
      && |s| <= src.Length && src[0..|s|] == s && dp == 0
      && ((src == t1 && dst == t2 && spare == t3)
          || (((src == t2 && dst == t3) || (src == t3 && dst == t2)) && spare == src
              && forall j :: 0 <= j < i ==> filters[j] != BITSHUFFLE))
  }

  lemma NextOfActive(filters: seq<nat>, i: nat)
    requires i < |filters|
    ensures NextFilter(filters, i + 1) == if filters[i] != NOFILTER then filters[i] else NextFilter(filters, i)
  {
  }

  /** The delta filter, when it is next, is the last one. */
  lemma DeltaIsLast(filters: seq<nat>, i: nat, last: int)
    requires Ordered(filters) && i < |filters| && filters[i] == DELTA && IsLast(filters, last)
    ensures last == i
  {
  }

  /** Where no filter is active the block stays as it is. */
  lemma {:induction false} StagesSame(filters: seq<nat>, ts: nat, ref: seq<byte>, offset: nat, st: seq<seq<byte>>, k: nat, i: nat)
    requires ts > 0 && Stages(filters, ts, ref, offset, st) && k <= i < |st|
    requires forall j :: k <= j < i ==> filters[j] == NOFILTER
    ensures st[i] == st[k]
  {
    if k < i {
      StagesSame(filters, ts, ref, offset, st, k, i - 1);
      assert Filtered(filters[i - 1], ts, ref, offset, st[i - 1], st[i]);
    }
  }

  // ----- Which buffer is whose -----

  /** The place of the block in the destination, and the three buffers given to pipeline_d. */
  datatype Buffer = Place | First | Second | Third

  /** What the variables _src, _dest and _tmp point to. */
  datatype Hands = Hands(src: Buffer, dst: Buffer, spare: Buffer)

  /** The last filter to be undone, and the one before a delta filter, write to the place of
      the block. */
  ghost function Aim(filters: seq<nat>, i: nat, h: Hands): Hands
    requires i < |filters|
  {
    if IsLast(filters, i) || NextFilter(filters, i) == DELTA then h.(dst := Place) else h
  }

  /** The cycling of the buffers: what was written is read next, and is the spare too. */
  function Turn(f: nat, h: Hands): Hands {
    if f == NOFILTER then h else Hands(h.dst, h.spare, h.dst)
  }

  /** What they point to when the slots from `i` on are done. */
  ghost function HandsAt(filters: seq<nat>, i: nat): Hands
    requires i <= |filters|
    decreases |filters| - i
  {
    if i == |filters| then Hands(First, Second, Third)
    else Turn(filters[i], Aim(filters, i, HandsAt(filters, i + 1)))
  }

  /** The arrays that are in hand. */
  ghost predicate InHand(h: Hands, src: array<byte>, dst: array<byte>, spare: array<byte>,
                         dest: array<byte>, t1: array<byte>, t2: array<byte>, t3: array<byte>) {
    && src == ArrayOf(h.src, dest, t1, t2, t3) && dst == ArrayOf(h.dst, dest, t1, t2, t3)
    && spare == ArrayOf(h.spare, dest, t1, t2, t3)
  }

  function ArrayOf(b: Buffer, dest: array<byte>, t1: array<byte>, t2: array<byte>, t3: array<byte>): array<byte> {
    match b case Place => dest case First => t1 case Second => t2 case Third => t3
  }

  lemma FirstHands(filters: seq<nat>, dest: array<byte>, t1: array<byte>, t2: array<byte>, t3: array<byte>)
    ensures InHand(HandsAt(filters, |filters|), t1, t2, t3, dest, t1, t2, t3)
  {
  }

  lemma NextHands(filters: seq<nat>, i: nat, last: int, src: array<byte>, dst: array<byte>, spare: array<byte>,
                  dest: array<byte>, t1: array<byte>, t2: array<byte>, t3: array<byte>)
    requires i < |filters| && IsLast(filters, last) && InHand(HandsAt(filters, i + 1), src, dst, spare, dest, t1, t2, t3)
    ensures var d := if last == i || NextFilter(filters, i) == DELTA then dest else dst;
            if filters[i] == NOFILTER then InHand(HandsAt(filters, i), src, d, spare, dest, t1, t2, t3)
            else InHand(HandsAt(filters, i), d, spare, d, dest, t1, t2, t3)
  {
    hide NextFilter;
  }

  /** A filter that is undone after another gets its own source as the spare buffer, which
      only the bit shuffle needs; the one that is undone first does not. */
  lemma {:induction false} SpareIsSource(filters: seq<nat>, i: nat)
    requires i <= |filters|
    ensures HandsAt(filters, i).spare == HandsAt(filters, i).src <==> exists j :: i <= j < |filters| && filters[j] != NOFILTER
    ensures (forall j :: i <= j < |filters| ==> filters[j] == NOFILTER) ==>
              HandsAt(filters, i).src == First && HandsAt(filters, i).spare == Third
    decreases |filters| - i
  {
    hide IsLast, NextFilter;
    if i < |filters| {
      SpareIsSource(filters, i + 1);
    }
  }

  /** A delta filter in the last slot, with another filter below, is undone in a buffer that
      nothing has been written to, while the block waits in its place. */
  lemma TopDeltaMissesBlock(filters: seq<nat>)
    requires |filters| == MAX_FILTERS && filters[MAX_FILTERS - 1] == DELTA
    requires NextFilter(filters, MAX_FILTERS - 1) != NOFILTER && NextFilter(filters, MAX_FILTERS - 1) != DELTA
    ensures NextFilter(filters, MAX_FILTERS) == DELTA
    ensures Aim(filters, MAX_FILTERS - 1, HandsAt(filters, MAX_FILTERS)) == Hands(First, Second, Third)
  {
    NextIsBelow(filters, MAX_FILTERS - 1);
  }

  lemma {:induction false} NextIsBelow(filters: seq<nat>, i: nat)
    requires i <= |filters| && NextFilter(filters, i) != NOFILTER
    ensures exists j :: 0 <= j < i && filters[j] != NOFILTER
  {
    if filters[i - 1] == NOFILTER {
      NextIsBelow(filters, i - 1);
    }
  }

  /** How many filters are left when only the delta filter has to be undone: none
      without it, or it and what is below it. */
  function LeftForDelta(filters: seq<nat>): (k: nat)
    ensures k <= |filters|
    ensures if DELTA in filters then k > 0 && filters[k - 1] == DELTA else k == 0
  {
    if |filters| == 0 then 0
    else if filters[|filters| - 1] == DELTA then |filters|
    else LeftForDelta(filters[..|filters| - 1])
  }

  lemma LeftIsLast(filters: seq<nat>, last: int)
    requires Ordered(filters) && IsLast(filters, last)
    ensures if last >= 0 && filters[last] == DELTA then LeftForDelta(filters) == last + 1 else LeftForDelta(filters) == 0
  {
    hide LeftForDelta;
  }

  /** pipeline_d as far as the delta filter, where a thread has to wait for block 0: `t1`
      holds the block after the last filter, or its own place does when the delta filter
      is the only one. */
  method PipelineToDelta(filters: seq<nat>, ts: nat, bsize: nat, dest: array<byte>, offset: nat,
                         t1: array<byte>, t2: array<byte>, t3: array<byte>, last: nat,
                         ghost ref: seq<byte>, ghost st: seq<seq<byte>>)
    requires ts > 0 && Known(filters) && Ordered(filters) && KeepsAll(filters, ts, bsize) && IsLast(filters, last)
    requires Stages(filters, ts, ref, offset, st) && |st| == MAX_FILTERS + 1 && |st[0]| == bsize
    requires offset + bsize <= dest.Length && bsize <= t1.Length && bsize <= t2.Length && bsize <= t3.Length
    requires dest != t1 && dest != t2 && dest != t3 && t1 != t2 && t1 != t3 && t2 != t3
    requires if NextFilter(filters, MAX_FILTERS) == DELTA then dest[offset..offset + bsize] == st[MAX_FILTERS]
             else t1[0..bsize] == st[MAX_FILTERS]
    modifies dest, t2, t3
    ensures dest[offset..offset + bsize] == st[LeftForDelta(filters)]
    ensures forall k :: 0 <= k < dest.Length && !(offset <= k < offset + bsize) ==> dest[k] == old(dest[k])
  {
    hide Filtered, WordSize, NextFilter, Lossless, LeftForDelta, InHand, HandsAt;
    FirstHands(filters, dest, t1, t2, t3);
    var src, dst, spare := t1, t2, t3;
    var dp: nat := 0;
    var i: nat := MAX_FILTERS;
    StagesSize(filters, ts, ref, offset, st, MAX_FILTERS);
    StagesSame(filters, ts, ref, offset, st, 0, last);
    LeftIsLast(filters, last);
    while i > last
      invariant last <= i <= MAX_FILTERS && i > last
      invariant Located(filters, i, st[i], dest, offset, src, dst, dp, spare, t1, t2, t3)
      invariant InHand(HandsAt(filters, i), src, dst, spare, dest, t1, t2, t3)
      invariant forall k :: 0 <= k < dest.Length && !(offset <= k < offset + bsize) ==> dest[k] == old(dest[k])
    {
      i := i - 1;
      StagesSize(filters, ts, ref, offset, st, i);
      StagesSize(filters, ts, ref, offset, st, i + 1);
      NextOfActive(filters, i);
      NextHands(filters, i, last, src, dst, spare, dest, t1, t2, t3);
      if last == i || NextFilter(filters, i) == DELTA {
        dst, dp := dest, offset;
      }
      if filters[i] == SHUFFLE || filters[i] == BITSHUFFLE {
        UndoFilter(filters[i], ts, bsize, dest, offset, src, dst, dp, spare, ref, st[i], st[i + 1]);
      } else if filters[i] == DELTA {
        DeltaIsLast(filters, i, last);
      }
      if last == i {
        return;
      }
      if filters[i] == NOFILTER {
        StagesSame(filters, ts, ref, offset, st, i, i + 1);
      } else {
        src := dst;
        dst, dp := spare, 0;
        spare := src;
      }
    }
  }

  /** pipeline_d in one thread. The first block of the chunk has to be there before any
      other can be undone. */
  method PipelineD(filters: seq<nat>, ts: nat, bsize: nat, dest: array<byte>, offset: nat,
                   t1: array<byte>, t2: array<byte>, t3: array<byte>, last: nat,
                   ghost ref: seq<byte>, ghost st: seq<seq<byte>>)
    requires ts > 0 && Known(filters) && Ordered(filters) && KeepsAll(filters, ts, bsize) && IsLast(filters, last)
    requires Stages(filters, ts, ref, offset, st) && |st| == MAX_FILTERS + 1 && |st[0]| == bsize <= |ref|
    requires offset + bsize <= dest.Length && bsize <= t1.Length && bsize <= t2.Length && bsize <= t3.Length
    requires dest != t1 && dest != t2 && dest != t3 && t1 != t2 && t1 != t3 && t2 != t3
    requires if NextFilter(filters, MAX_FILTERS) == DELTA then dest[offset..offset + bsize] == st[MAX_FILTERS]
             else t1[0..bsize] == st[MAX_FILTERS]
    requires DELTA in filters ==>
               if offset == 0 then st[0] == ref[..bsize] && WordSize(ts) <= bsize
               else bsize <= offset && dest[..bsize] == ref[..bsize]
    modifies dest, t2, t3
    ensures dest[offset..offset + bsize] == st[0]
    ensures forall k :: 0 <= k < dest.Length && !(offset <= k < offset + bsize) ==> dest[k] == old(dest[k])
  {
    hide Filtered, WordSize, NextFilter, Lossless, LeftForDelta, Stages;
    PipelineToDelta(filters, ts, bsize, dest, offset, t1, t2, t3, last, ref, st);
    LeftIsLast(filters, last);
    if filters[last] == DELTA {
      DeltaStage(filters, ts, ref, offset, st);
      UndoDelta(ts, bsize, dest, offset, ref, st[0], st[last + 1]);
    }
  }

  /** What the delta filter was given is the block itself. */
  lemma DeltaStage(filters: seq<nat>, ts: nat, ref: seq<byte>, offset: nat, st: seq<seq<byte>>)
    requires ts > 0 && Ordered(filters) && DELTA in filters && Stages(filters, ts, ref, offset, st) && |st| == MAX_FILTERS + 1
    ensures LeftForDelta(filters) > 0 && |st[LeftForDelta(filters)]| == |st[0]|
    ensures Filtered(DELTA, ts, ref, offset, st[0], st[LeftForDelta(filters)])
  {
    hide Filtered, LeftForDelta;
    var k := LeftForDelta(filters);
    StagesSame(filters, ts, ref, offset, st, 0, k - 1);
    StagesSize(filters, ts, ref, offset, st, k);
    assert Filtered(filters[k - 1], ts, ref, offset, st[k - 1], st[k]);
  }
}
