/** Compression by several threads: t_blosc between its two barriers
    (c-blosc2/blosc/blosc.c:1913-2036). What a thread does inside a critical section of
    `count_mutex` is one step, and so is everything between two accesses to shared
    memory; any thread may take the next step. */
module ParallelCompress {
  import opened Bytes

  /** What blosc_c makes of a block: bytes, 0 because it does not get smaller, or a
      negative error code. */
  datatype Coded = Coded(b: seq<byte>) | Incompressible | Error(code: int)

  /** `start` is where the header and the block starts end; `maxbytes` is destsize. */
  datatype Job = Job(nblocks: nat, start: nat, maxbytes: nat, coded: nat -> Coded)

  ghost predicate GoodJob(job: Job) {
    forall b :: 0 <= b < job.nblocks ==>
      match job.coded(b)
      case Coded(bytes) => bytes != []
      case Incompressible => true
      case Error(code) => code < 0
  }

  function Size(job: Job, b: nat): nat {
    if job.coded(b).Coded? then |job.coded(b).b| else 0
  }

  /** Where a thread is, and the block it has claimed. A thread that copies block `b` to
      `at` has claimed the block `next` already. */
  datatype Pc =
    | Begin
    | Test(b: nat)
    | Compress(b: nat)
    | Check(b: nat)
    | Fail(b: nat, code: int)
    | Publish(b: nat)
    | Copy(b: nat, at: nat, next: nat)
    | Finished

  /** The blocks that have been given their place, in the order they got it. */
  datatype Log = Nothing | Put(init: Log, b: nat)

  datatype State = State(nblock: int, output: nat, giveup: int, bstarts: seq<nat>, dest: seq<byte>,
                         pcs: seq<Pc>, log: Log)

  ghost predicate Init(job: Job, s: State) {
    && s.nblock == -1 && s.output == job.start && s.giveup == 1
    && |s.bstarts| == job.nblocks && |s.dest| == job.maxbytes
    && s.pcs != [] && (forall i :: 0 <= i < |s.pcs| ==> s.pcs[i] == Begin)
    && s.log == Nothing
  }

  ghost function Goto(s: State, i: nat, p: Pc): State
    requires i < |s.pcs|
  {
    s.(pcs := s.pcs[i := p])
  }

  /** memcpy into the destination. */
  function Written(dest: seq<byte>, at: nat, bytes: seq<byte>): (d: seq<byte>)
    requires at + |bytes| <= |dest|
    ensures |d| == |dest|
  {
    dest[..at] + bytes + dest[at + |bytes|..]
  }

  /** The critical section in which a block gets its place. */
  ghost function PublishBlock(job: Job, s: State, i: nat, b: nat): State
    requires i < |s.pcs| && b < |s.bstarts| && s.nblock >= -1
  {
    var t := s.(bstarts := s.bstarts[b := s.output]);
    var cbytes := Size(job, b);
    if cbytes == 0 || s.output + cbytes > job.maxbytes then Goto(t, i, Finished).(giveup := 0)
    else Goto(t, i, Copy(b, s.output, s.nblock + 1))
         .(nblock := s.nblock + 1, output := s.output + cbytes, log := Put(s.log, b))
  }

  ghost predicate Step(job: Job, s: State, i: nat, s': State) {
    && i < |s.pcs|
    && match s.pcs[i]
       case Begin => s.nblock >= -1 && s' == Goto(s, i, Test(s.nblock + 1)).(nblock := s.nblock + 1)
       case Test(b) => s' == Goto(s, i, if b < job.nblocks && s.giveup > 0 then Compress(b) else Finished)
       case Compress(b) => s' == Goto(s, i, Check(b))
       case Check(b) =>
         s' == Goto(s, i,
           if s.giveup <= 0 then Finished
           else if job.coded(b).Error? then Fail(b, job.coded(b).code)
           else Publish(b))
       case Fail(b, code) => s' == Goto(s, i, Finished).(giveup := code)
       case Publish(b) => b < |s.bstarts| && s.nblock >= -1 && s' == PublishBlock(job, s, i, b)
       case Copy(b, at, next) =>
         && at + Size(job, b) <= |s.dest| && job.coded(b).Coded?
         && s' == Goto(s, i, Test(next)).(dest := Written(s.dest, at, job.coded(b).b))
       case Finished => false
  }

  datatype Run = Start(s: State) | Then(before: Run, i: nat, s: State)

  ghost predicate Possible(job: Job, r: Run) {
    match r
    case Start(s) => Init(job, s)
    case Then(before, i, s) => Possible(job, before) && Step(job, before.s, i, s)
  }

  // ----- The places of blocks -----

  ghost predicate Has(log: Log, b: nat) {
    log.Put? && (log.b == b || Has(log.init, b))
  }

  ghost predicate Distinct(log: Log) {
    log.Put? ==> Distinct(log.init) && !Has(log.init, log.b)
  }

  ghost function End(job: Job, log: Log): nat {
    if log.Nothing? then job.start else End(job, log.init) + Size(job, log.b)
  }

  ghost function Place(job: Job, log: Log, b: nat): nat
    requires Has(log, b)
  {
    if log.b == b then End(job, log.init) else Place(job, log.init, b)
  }

  lemma {:induction false} PlaceBounds(job: Job, log: Log, b: nat)
    requires Has(log, b)
    ensures job.start <= Place(job, log, b) && Place(job, log, b) + Size(job, b) <= End(job, log) && log.Put?
  {
    EndBound(job, log.init);
    if log.b != b {
      PlaceBounds(job, log.init, b);
    }
  }

  lemma {:induction false} EndBound(job: Job, log: Log)
    ensures job.start <= End(job, log)
  {
    if log.Put? {
      EndBound(job, log.init);
    }
  }

  /** No two blocks share a byte. */
  lemma {:induction false} PlacesDisjoint(job: Job, log: Log, b: nat, c: nat)
    requires Distinct(log) && Has(log, b) && Has(log, c) && b != c
    ensures || Place(job, log, b) + Size(job, b) <= Place(job, log, c)
            || Place(job, log, c) + Size(job, c) <= Place(job, log, b)
  {
    if log.b == b {
      PlaceBounds(job, log.init, c);
    } else if log.b == c {
      PlaceBounds(job, log.init, b);
    } else {
      PlacesDisjoint(job, log.init, b, c);
    }
  }

  /** No byte between the block starts and the end of the output is left out. */
  lemma {:induction false} PlacesCover(job: Job, log: Log, k: nat) returns (b: nat)
    requires Distinct(log) && job.start <= k < End(job, log)
    ensures Has(log, b) && Place(job, log, b) <= k < Place(job, log, b) + Size(job, b)
  {
    if k >= End(job, log.init) {
      b := log.b;
    } else {
      b := PlacesCover(job, log.init, k);
    }
  }

  // ----- What every step keeps -----

  /** The block a thread has claimed and not yet given its place; -1 for none. */
  function Claim(p: Pc): int {
    match p
    case Begin => -1
    case Finished => -1
    case Copy(_, _, next) => next
    case Test(b) => b
    case Compress(b) => b
    case Check(b) => b
    case Fail(b, _) => b
    case Publish(b) => b
  }

  /** The block a thread is about to copy to its place. */
  function Copying(p: Pc): int {
    if p.Copy? then p.b else -1
  }

  ghost predicate PcOk(job: Job, s: State, p: Pc) {
    match p
    case Compress(b) => b < job.nblocks
    case Check(b) => b < job.nblocks
    case Fail(b, code) => b < job.nblocks && job.coded(b) == Error(code)
    case Publish(b) => b < job.nblocks && !job.coded(b).Error?
    case Copy(b, at, _) => Has(s.log, b) && at == Place(job, s.log, b)
    case _ => true
  }

  /** No block is claimed twice, by whomever. */
  ghost predicate Claims(job: Job, s: State) {
    && s.nblock >= -1 && Distinct(s.log) && s.pcs != []
    && (forall i :: 0 <= i < |s.pcs| ==>
          && Claim(s.pcs[i]) <= s.nblock && PcOk(job, s, s.pcs[i])
          && (Claim(s.pcs[i]) >= 0 ==> !Has(s.log, Claim(s.pcs[i]))))
    && (forall i, j :: 0 <= i < |s.pcs| && 0 <= j < |s.pcs| && i != j && Claim(s.pcs[i]) >= 0 ==>
          Claim(s.pcs[i]) != Claim(s.pcs[j]))
    && (forall i, j :: 0 <= i < |s.pcs| && 0 <= j < |s.pcs| && i != j && Copying(s.pcs[i]) >= 0 ==>
          Copying(s.pcs[i]) != Copying(s.pcs[j]))
    && (forall b: nat :: Has(s.log, b) ==> b <= s.nblock && b < job.nblocks && job.coded(b).Coded?)
  }

  ghost predicate Claimed(s: State, b: int) {
    exists i :: 0 <= i < |s.pcs| && Claim(s.pcs[i]) == b
  }

  /** Unless somebody gave up, no block is forgotten. */
  ghost predicate Complete(job: Job, s: State) {
    s.giveup > 0 ==>
      && (forall b :: 0 <= b <= s.nblock && b < job.nblocks ==> Has(s.log, b) || Claimed(s, b))
      && (forall i :: 0 <= i < |s.pcs| && s.pcs[i] == Finished ==> s.nblock >= job.nblocks)
  }

  /** The table of block starts says where the blocks are, and they fit. */
  ghost predicate Placed(job: Job, s: State) {
    && |s.bstarts| == job.nblocks && |s.dest| == job.maxbytes
    && s.output == End(job, s.log) && (s.log.Put? ==> s.output <= job.maxbytes)
    && forall b: nat :: Has(s.log, b) && b < job.nblocks ==> s.bstarts[b] == Place(job, s.log, b)
  }

  ghost predicate NotCopied(s: State, b: nat) {
    forall i :: 0 <= i < |s.pcs| ==> Copying(s.pcs[i]) != b
  }

  /** The bytes of a block are in their place unless a thread is about to put them there. */
  ghost predicate Stored(job: Job, s: State) {
    forall b: nat :: Has(s.log, b) && NotCopied(s, b) ==> InPlace(job, s, b)
  }

  ghost predicate InPlace(job: Job, s: State, b: nat) {
    && Has(s.log, b) && job.coded(b).Coded?
    && Place(job, s.log, b) + Size(job, b) <= |s.dest|
    && s.dest[Place(job, s.log, b)..Place(job, s.log, b) + Size(job, b)] == job.coded(b).b
  }

  ghost predicate Inv(job: Job, s: State) {
    Claims(job, s) && Complete(job, s) && Placed(job, s) && Stored(job, s)
  }

  /** Only the thread `i` has moved. */
  ghost predicate OneMoved(s: State, i: nat, t: State) {
    i < |s.pcs| == |t.pcs| && t.pcs == s.pcs[i := t.pcs[i]]
  }

  /** A thread moves on with the block it has claimed, or drops it because it need not or
      must not be done. */
  ghost predicate Local(job: Job, s: State, i: nat, t: State) {
    && OneMoved(s, i, t) && t.log == s.log && t.nblock == s.nblock && t.output == s.output && t.dest == s.dest
    && (t.giveup == s.giveup || t.giveup <= 0)
    && Copying(s.pcs[i]) == -1 == Copying(t.pcs[i]) && PcOk(job, s, t.pcs[i])
    && (Claim(t.pcs[i]) == Claim(s.pcs[i])
        || (Claim(t.pcs[i]) == -1 && (t.giveup <= 0 || Claim(s.pcs[i]) >= job.nblocks)))
    && (t.pcs[i] == Finished ==> t.giveup <= 0 || s.nblock >= job.nblocks)
    && |t.bstarts| == |s.bstarts|
    && forall b: nat :: b < |s.bstarts| && Has(s.log, b) ==> t.bstarts[b] == s.bstarts[b]
  }

  lemma NotCopiedBefore(s: State, t: State, i: nat, b: nat)
    requires OneMoved(s, i, t) && NotCopied(t, b) && Copying(s.pcs[i]) != b
    ensures NotCopied(s, b)
  {
    forall j | 0 <= j < |s.pcs|
      ensures Copying(s.pcs[j]) != b
    {
      assert Copying(t.pcs[j]) != b;
    }
  }

  lemma ClaimedStill(s: State, t: State, i: nat, b: int)
    requires OneMoved(s, i, t) && Claimed(s, b) && (Claim(s.pcs[i]) != b || Claim(t.pcs[i]) == b)
    ensures Claimed(t, b)
  {
    var j :| 0 <= j < |s.pcs| && Claim(s.pcs[j]) == b;
    assert Claim(t.pcs[j]) == b;
  }

  /** Blocks that were in their place stay there while the destination is left alone. */
  lemma StoredStill(job: Job, s: State, i: nat, t: State)
    requires Stored(job, s) && OneMoved(s, i, t) && t.dest == s.dest && t.log == s.log && Copying(s.pcs[i]) == -1
    ensures Stored(job, t)
  {
    hide Has, Place;
    forall b: nat | Has(t.log, b) && NotCopied(t, b)
      ensures InPlace(job, t, b)
    {
      NotCopiedBefore(s, t, i, b);
      assert InPlace(job, s, b);
    }
  }

  /** Blocks that were not forgotten are not forgotten by a step that claims no less. */
  lemma CompleteStill(job: Job, s: State, i: nat, t: State)
    requires Complete(job, s) && OneMoved(s, i, t) && t.nblock >= s.nblock
    requires t.giveup > 0 ==> s.giveup > 0 && (t.pcs[i] == Finished ==> t.nblock >= job.nblocks)
    requires forall b: nat :: Has(s.log, b) ==> Has(t.log, b)
    requires t.giveup > 0 && Claim(s.pcs[i]) >= 0 && Claim(t.pcs[i]) != Claim(s.pcs[i]) ==>
               Claim(s.pcs[i]) >= job.nblocks || Has(t.log, Claim(s.pcs[i]))
    requires t.nblock > s.nblock ==> t.nblock == s.nblock + 1 == Claim(t.pcs[i])
    ensures Complete(job, t)
  {
    hide Has;
    if t.giveup > 0 {
      forall b: nat | b <= t.nblock && b < job.nblocks
        ensures Has(t.log, b) || Claimed(t, b)
      {
        if b > s.nblock {
          assert Claim(t.pcs[i]) == b;
        } else if !Has(t.log, b) {
          ClaimedStill(s, t, i, b);
        }
      }
    }
  }

  lemma LocalKeeps(job: Job, s: State, i: nat, t: State)
    requires Inv(job, s) && Local(job, s, i, t)
    ensures Inv(job, t)
  {
    hide Has, Place, Distinct, End, Complete, Stored;
    StoredStill(job, s, i, t);
    CompleteStill(job, s, i, t);
    assert Claims(job, t);
    assert Placed(job, t);
  }

  lemma BeginKeeps(job: Job, s: State, i: nat, t: State)
    requires Inv(job, s) && Step(job, s, i, t) && s.pcs[i] == Begin
    ensures Inv(job, t)
  {
    hide Has, Place, Distinct, End, Complete, Stored;
    StoredStill(job, s, i, t);
    CompleteStill(job, s, i, t);
    assert Claims(job, t);
    assert Placed(job, t);
  }

  lemma PutAdds(job: Job, log: Log, b: nat)
    requires Distinct(log) && !Has(log, b)
    ensures Distinct(Put(log, b)) && Has(Put(log, b), b) && Place(job, Put(log, b), b) == End(job, log)
    ensures End(job, Put(log, b)) == End(job, log) + Size(job, b)
    ensures forall c: nat :: Has(Put(log, b), c) <==> c == b || Has(log, c)
    ensures forall c: nat :: Has(log, c) ==> Place(job, Put(log, b), c) == Place(job, log, c)
  {
  }

  /** A block gets its place. */
  lemma PublishKeeps(job: Job, s: State, i: nat, t: State)
    requires Inv(job, s) && Step(job, s, i, t) && s.pcs[i].Publish? && t.pcs[i].Copy?
    ensures Inv(job, t)
  {
    hide Has, Place, Distinct, End, Complete, Stored;
    PutAdds(job, s.log, s.pcs[i].b);
    PublishClaims(job, s, i, t, s.pcs[i].b);
    PublishStores(job, s, i, t);
    CompleteStill(job, s, i, t);
    assert Placed(job, t);
  }

  /** A thread has got the place of its block and the next block to claim. */
  ghost predicate Published(s: State, i: nat, t: State, b: nat) {
    && OneMoved(s, i, t) && s.nblock >= -1 && s.pcs[i] == Publish(b) && t.pcs[i] == Copy(b, s.output, s.nblock + 1)
    && t.nblock == s.nblock + 1 && t.log == Put(s.log, b)
  }

  lemma PublishClaims(job: Job, s: State, i: nat, t: State, b: nat)
    requires Claims(job, s) && Published(s, i, t, b) && s.output == End(job, s.log)
    requires job.coded(b).Coded?
    ensures Claims(job, t)
  {
    hide Has, Place, Distinct, End;
    assert PcOk(job, s, s.pcs[i]) && Claim(s.pcs[i]) == b;
    PutAdds(job, s.log, b);
    forall j | 0 <= j < |t.pcs|
      ensures Claim(t.pcs[j]) <= t.nblock && PcOk(job, t, t.pcs[j])
      ensures Claim(t.pcs[j]) >= 0 ==> !Has(t.log, Claim(t.pcs[j]))
    {
      assert j != i ==> t.pcs[j] == s.pcs[j] && Claim(s.pcs[j]) != b;
    }
  }

  lemma PublishStores(job: Job, s: State, i: nat, t: State)
    requires Inv(job, s) && Step(job, s, i, t) && s.pcs[i].Publish? && t.pcs[i].Copy?
    ensures Stored(job, t)
  {
    hide Has, Place, Distinct, End, Complete;
    var b := s.pcs[i].b;
    PutAdds(job, s.log, b);
    forall c: nat | Has(t.log, c) && NotCopied(t, c)
      ensures InPlace(job, t, c)
    {
      assert Copying(t.pcs[i]) == b;
      NotCopiedBefore(s, t, i, c);
      assert InPlace(job, s, c);
    }
  }

  /** The bytes of a block are put in their place, and nobody else's are touched. */
  lemma CopyKeeps(job: Job, s: State, i: nat, t: State)
    requires Inv(job, s) && Step(job, s, i, t) && s.pcs[i].Copy?
    ensures Inv(job, t)
  {
    hide Has, Place, Distinct, End, Complete, Stored, Written;
    CompleteStill(job, s, i, t);
    CopyStores(job, s, i, t);
    assert Claims(job, t);
    assert Placed(job, t);
  }

  lemma CopyStores(job: Job, s: State, i: nat, t: State)
    requires Inv(job, s) && Step(job, s, i, t) && s.pcs[i].Copy?
    ensures Stored(job, t)
  {
    hide Has, Place, Distinct, End, Complete, Written;
    var b := s.pcs[i].b;
    forall c: nat | Has(t.log, c) && NotCopied(t, c)
      ensures InPlace(job, t, c)
    {
      PlaceBounds(job, s.log, c);
      if c != b {
        NotCopiedBefore(s, t, i, c);
        assert InPlace(job, s, c);
        PlacesDisjoint(job, s.log, b, c);
        WrittenElsewhere(s.dest, Place(job, s.log, b), job.coded(b).b, Place(job, s.log, c), Size(job, c));
      } else {
        WrittenHere(s.dest, Place(job, s.log, b), job.coded(b).b);
      }
    }
  }

  lemma WrittenHere(dest: seq<byte>, at: nat, bytes: seq<byte>)
    requires at + |bytes| <= |dest|
    ensures Written(dest, at, bytes)[at..at + |bytes|] == bytes
  {
  }

  lemma WrittenElsewhere(dest: seq<byte>, at: nat, bytes: seq<byte>, from: nat, n: nat)
    requires at + |bytes| <= |dest| && from + n <= |dest|
    requires from + n <= at || at + |bytes| <= from
    ensures Written(dest, at, bytes)[from..from + n] == dest[from..from + n]
  {
  }

  lemma LocalStep(job: Job, s: State, i: nat, t: State)
    requires GoodJob(job) && Inv(job, s) && Step(job, s, i, t)
    requires s.pcs[i] != Begin && !t.pcs[i].Copy? && !s.pcs[i].Copy?
    ensures Local(job, s, i, t)
  {
    hide Has, Place, Distinct, End, Complete, Stored;
  }

  lemma StepKeeps(job: Job, s: State, i: nat, t: State)
    requires GoodJob(job) && Inv(job, s) && Step(job, s, i, t)
    ensures Inv(job, t)
  {
    hide Inv, Has, Place, Written;
    if s.pcs[i] == Begin {
      BeginKeeps(job, s, i, t);
    } else if t.pcs[i].Copy? {
      PublishKeeps(job, s, i, t);
    } else if s.pcs[i].Copy? {
      CopyKeeps(job, s, i, t);
    } else {
      LocalStep(job, s, i, t);
      LocalKeeps(job, s, i, t);
    }
  }

  lemma {:induction false} EveryRunKeeps(job: Job, r: Run)
    requires GoodJob(job) && Possible(job, r)
    ensures Inv(job, r.s)
  {
    match r
    case Start(s) =>
    case Then(before, i, s) =>
      EveryRunKeeps(job, before);
      StepKeeps(job, before.s, i, s);
  }

  // ----- The size of a set of blocks does not depend on their order -----

  ghost function Sum(job: Job, n: nat): nat {
    if n == 0 then 0 else Sum(job, n - 1) + Size(job, n - 1)
  }

  ghost function Without(log: Log, b: nat): Log {
    if log.Nothing? then Nothing
    else if log.b == b then log.init
    else Put(Without(log.init, b), log.b)
  }

  lemma {:induction false} WithoutLess(job: Job, log: Log, b: nat)
    requires Distinct(log) && Has(log, b)
    ensures Distinct(Without(log, b)) && End(job, Without(log, b)) + Size(job, b) == End(job, log)
    ensures forall c: nat :: Has(Without(log, b), c) <==> Has(log, c) && c != b
  {
    if log.b != b {
      WithoutLess(job, log.init, b);
    }
  }

  lemma {:induction false} EndIsSum(job: Job, log: Log, n: nat)
    requires Distinct(log) && forall b: nat :: Has(log, b) ==> b < n
    ensures End(job, log) <= job.start + Sum(job, n)
    ensures (forall b: nat :: b < n ==> Has(log, b)) ==> End(job, log) == job.start + Sum(job, n)
    decreases n
  {
    if n == 0 {
      assert log.Put? ==> Has(log, log.b);
    } else if Has(log, n - 1) {
      WithoutLess(job, log, n - 1);
      EndIsSum(job, Without(log, n - 1), n - 1);
    } else {
      EndIsSum(job, log, n - 1);
    }
  }

  // ----- What a run comes to -----

  ghost predicate AllFinished(s: State) {
    forall i :: 0 <= i < |s.pcs| ==> s.pcs[i] == Finished
  }

  /** What parallel_blosc returns. */
  function Outcome(s: State): int {
    if s.giveup <= 0 then s.giveup else s.output
  }

  /** Every block compresses, and together they fit. */
  ghost predicate Fits(job: Job) {
    && (forall b: nat :: b < job.nblocks ==> job.coded(b).Coded?)
    && (job.nblocks > 0 ==> job.start + Sum(job, job.nblocks) <= job.maxbytes)
  }

  /** The chunk in the destination: every block where the table says it is. */
  ghost predicate HoldsAll(job: Job, bstarts: seq<nat>, dest: seq<byte>) {
    && |bstarts| == job.nblocks
    && forall b: nat :: b < job.nblocks ==>
         && job.coded(b).Coded? && bstarts[b] + Size(job, b) <= |dest|
         && dest[bstarts[b]..bstarts[b] + Size(job, b)] == job.coded(b).b
  }

  /** The blocks lie one after another, in some order, from the block starts to the end
      of the output: no two share a byte and no byte is left over. */
  ghost predicate Tiled(job: Job, bstarts: seq<nat>, output: nat) {
    && |bstarts| == job.nblocks
    && (forall b: nat :: b < job.nblocks ==> job.start <= bstarts[b] && bstarts[b] + Size(job, b) <= output)
    && (forall b: nat, c: nat :: b < job.nblocks && c < job.nblocks && b != c ==>
          bstarts[b] + Size(job, b) <= bstarts[c] || bstarts[c] + Size(job, c) <= bstarts[b])
    && (forall k: nat :: job.start <= k < output ==> Covered(job, bstarts, k))
  }

  ghost predicate Covered(job: Job, bstarts: seq<nat>, k: nat) {
    exists b: nat :: b < job.nblocks && b < |bstarts| && bstarts[b] <= k < bstarts[b] + Size(job, b)
  }

  /** Two threads never have the same block in hand. */
  lemma OneThreadPerBlock(job: Job, r: Run, i: nat, j: nat)
    requires GoodJob(job) && Possible(job, r) && i < |r.s.pcs| && j < |r.s.pcs| && i != j
    requires Claim(r.s.pcs[i]) >= 0
    ensures Claim(r.s.pcs[i]) != Claim(r.s.pcs[j]) && Claim(r.s.pcs[i]) != Copying(r.s.pcs[j])
  {
    hide Has, Place, Distinct, End, Step;
    EveryRunKeeps(job, r);
    assert PcOk(job, r.s, r.s.pcs[j]);
  }

  lemma EveryBlockHasItsPlace(job: Job, s: State)
    requires Inv(job, s) && AllFinished(s) && s.giveup > 0
    ensures forall b: nat :: b < job.nblocks ==> Has(s.log, b) && InPlace(job, s, b)
  {
    hide Has, Place, Distinct, End, InPlace;
    assert s.pcs[0] == Finished;
    forall b: nat | b < job.nblocks
      ensures Has(s.log, b) && InPlace(job, s, b)
    {
      assert NotCopied(s, b);
      assert !Claimed(s, b);
    }
  }

  /** A run in which nobody gave up leaves a chunk that holds every block, within the
      destination, whatever the order the blocks came in. */
  lemma NoGiveupMakesAChunk(job: Job, r: Run)
    requires GoodJob(job) && Possible(job, r) && AllFinished(r.s) && r.s.giveup > 0
    ensures HoldsAll(job, r.s.bstarts, r.s.dest) && Tiled(job, r.s.bstarts, r.s.output)
    ensures r.s.output == job.start + Sum(job, job.nblocks)
    ensures job.nblocks > 0 ==> r.s.output <= job.maxbytes
  {
    hide Step, End, Has, Place, Distinct, Tiled, Sum, Possible, HoldsAll, InPlace;
    var s := r.s;
    EveryRunKeeps(job, r);
    EveryBlockHasItsPlace(job, s);
    EndIsSum(job, s.log, job.nblocks);
    PlacesTile(job, s);
    PlacesHold(job, s);
    if job.nblocks > 0 {
      PlaceBounds(job, s.log, 0);
    }
  }

  lemma PlacesHold(job: Job, s: State)
    requires Placed(job, s) && forall b: nat :: b < job.nblocks ==> Has(s.log, b) && InPlace(job, s, b)
    ensures HoldsAll(job, s.bstarts, s.dest)
  {
    hide End, Has, Place;
    forall b: nat | b < job.nblocks
      ensures job.coded(b).Coded? && s.bstarts[b] + Size(job, b) <= |s.dest|
      ensures s.dest[s.bstarts[b]..s.bstarts[b] + Size(job, b)] == job.coded(b).b
    {
      assert InPlace(job, s, b) && Has(s.log, b);
    }
  }

  lemma PlacesTile(job: Job, s: State)
    requires Claims(job, s) && Placed(job, s) && forall b: nat :: b < job.nblocks ==> Has(s.log, b)
    ensures Tiled(job, s.bstarts, s.output)
  {
    hide End, Has, Place, Distinct;
    forall b: nat, c: nat | b < job.nblocks && c < job.nblocks && b != c
      ensures s.bstarts[b] + Size(job, b) <= s.bstarts[c] || s.bstarts[c] + Size(job, c) <= s.bstarts[b]
    {
      PlacesDisjoint(job, s.log, b, c);
    }
    forall b: nat | b < job.nblocks
      ensures job.start <= s.bstarts[b] && s.bstarts[b] + Size(job, b) <= s.output
    {
      PlaceBounds(job, s.log, b);
    }
    forall k: nat | job.start <= k < s.output
      ensures Covered(job, s.bstarts, k)
    {
      var b := PlacesCover(job, s.log, k);
    }
  }

  /** Whoever gave up had a reason that any other order would have met as well. */
  ghost predicate Reasonable(job: Job, s: State) {
    && s.giveup <= 1
    && (s.giveup <= 0 ==> !Fits(job))
    && (s.giveup < 0 ==> exists b: nat :: b < job.nblocks && job.coded(b) == Error(s.giveup))
    && (s.giveup == 0 ==> exists b: nat :: b < job.nblocks && !job.coded(b).Error?)
  }

  lemma StepIsReasonable(job: Job, s: State, i: nat, t: State)
    requires GoodJob(job) && Inv(job, s) && Step(job, s, i, t) && Reasonable(job, s)
    ensures Reasonable(job, t)
  {
    hide Has, Place, Distinct, End, Stored, Complete, Sum;
    match s.pcs[i]
    case Publish(b) =>
      assert PcOk(job, s, s.pcs[i]);
      PutAdds(job, s.log, b);
      EndIsSum(job, Put(s.log, b), job.nblocks);
    case Fail(b, code) =>
      assert PcOk(job, s, s.pcs[i]);
    case _ =>
  }

  lemma {:induction false} EveryRunIsReasonable(job: Job, r: Run)
    requires GoodJob(job) && Possible(job, r)
    ensures Reasonable(job, r.s)
  {
    hide Step, Inv;
    match r
    case Start(s) =>
    case Then(before, i, s) =>
      EveryRunIsReasonable(job, before);
      EveryRunKeeps(job, before);
      StepIsReasonable(job, before.s, i, s);
  }

  /** The outcome does not depend on the schedule: it is the size of the chunk if every
      block compresses and all fit together, and otherwise 0 or the code of a block that
      failed. */
  lemma OutcomeIsScheduleFree(job: Job, r: Run)
    requires GoodJob(job) && Possible(job, r) && AllFinished(r.s)
    ensures Fits(job) ==> r.s.giveup > 0 && Outcome(r.s) == job.start + Sum(job, job.nblocks)
    ensures !Fits(job) ==> Outcome(r.s) <= 0
    ensures Outcome(r.s) < 0 ==> exists b: nat :: b < job.nblocks && job.coded(b) == Error(Outcome(r.s))
    ensures r.s.giveup == 0 ==> exists b: nat :: b < job.nblocks && !job.coded(b).Error?
  {
    hide Step, Inv, Tiled, Sum;
    EveryRunIsReasonable(job, r);
    if r.s.giveup > 0 {
      NoGiveupMakesAChunk(job, r);
    }
  }

  // ----- Every run ends -----

  function Rank(job: Job, p: Pc): nat {
    match p
    case Begin => 8
    case Test(b) => if b < job.nblocks then 6 else 1
    case Compress(_) => 5
    case Check(_) => 4
    case Fail(_, _) => 3
    case Publish(_) => 3
    case Copy(_, _, next) => if next < job.nblocks then 7 else 2
    case Finished => 0
  }

  ghost function Ranks(job: Job, pcs: seq<Pc>): nat {
    if pcs == [] then 0 else Rank(job, pcs[0]) + Ranks(job, pcs[1..])
  }

  ghost function Left(job: Job, s: State): nat {
    Ranks(job, s.pcs) + if s.nblock + 1 < job.nblocks then 5 * (job.nblocks - s.nblock - 1) else 0
  }

  lemma {:induction false} RanksUpdate(job: Job, pcs: seq<Pc>, i: nat, p: Pc)
    requires i < |pcs|
    ensures Ranks(job, pcs[i := p]) == Ranks(job, pcs) - Rank(job, pcs[i]) + Rank(job, p)
  {
    if i == 0 {
      assert pcs[0 := p][1..] == pcs[1..];
    } else {
      assert pcs[i := p][1..] == pcs[1..][i - 1 := p];
      RanksUpdate(job, pcs[1..], i - 1, p);
    }
  }

  /** A thread that has not finished can take its next step, whatever the others do, and
      every step brings the end of the run closer. */
  lemma EveryRunEnds(job: Job, r: Run, i: nat) returns (t: State)
    requires GoodJob(job) && Possible(job, r) && i < |r.s.pcs| && r.s.pcs[i] != Finished
    ensures Step(job, r.s, i, t) && Left(job, t) < Left(job, r.s)
  {
    hide Has, Place, Distinct, End, Stored, Complete, Ranks, Possible;
    EveryRunKeeps(job, r);
    var s := r.s;
    assert PcOk(job, s, s.pcs[i]);
    match s.pcs[i] {
      case Begin => t := Goto(s, i, Test(s.nblock + 1)).(nblock := s.nblock + 1);
      case Test(b) => t := Goto(s, i, if b < job.nblocks && s.giveup > 0 then Compress(b) else Finished);
      case Compress(b) => t := Goto(s, i, Check(b));
      case Check(b) =>
        t := Goto(s, i, if s.giveup <= 0 then Finished
                        else if job.coded(b).Error? then Fail(b, job.coded(b).code) else Publish(b));
      case Fail(b, code) => t := Goto(s, i, Finished).(giveup := code);
      case Publish(b) => t := PublishBlock(job, s, i, b);
      case Copy(b, at, next) =>
        PlaceBounds(job, s.log, b);
        t := Goto(s, i, Test(next)).(dest := Written(s.dest, at, job.coded(b).b));
    }
    RanksUpdate(job, s.pcs, i, t.pcs[i]);
  }

  /** Every run can be carried on to its end. */
  lemma RunToTheEnd(job: Job, r: Run) returns (end: Run)
    requires GoodJob(job) && Possible(job, r)
    ensures Possible(job, end) && AllFinished(end.s)
    decreases Left(job, r.s)
  {
    hide Step, Left;
    if i: nat :| i < |r.s.pcs| && r.s.pcs[i] != Finished {
      var t := EveryRunEnds(job, r, i);
      end := RunToTheEnd(job, Then(r, i, t));
    } else {
      end := r;
    }
  }
}
