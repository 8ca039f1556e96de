/** The barrier that Blosc builds from a counter, a mutex and one condition variable
    (c-blosc2/blosc/blosc.c:105-137), used by nthreads workers and the master over any
    number of jobs (blosc.c:1010-1030, 1897-1903, 2044-2045). A step is what a thread
    does while it holds the mutex. Condition variables wake nobody of themselves. */
module CountingBarrier {
  /** A thread is on its way to its barrier number `round`, waits in it, or has been
      woken in it and not yet left. Even barriers are WAIT_INIT, odd ones WAIT_FINISH:
      in between, in an odd round, a worker does the job number `round / 2`. */
  datatype Phase = Running | Waiting | Woken
  datatype Thread = Thread(round: nat, phase: Phase)
  datatype State = State(count: nat, threads: seq<Thread>)

  /** The workers and the master. */
  ghost predicate Init(s: State) {
    |s.threads| > 1 && s.count == 0 && forall i :: 0 <= i < |s.threads| ==> s.threads[i] == Thread(0, Running)
  }

  function Nthreads(s: State): nat
    requires s.threads != []
  {
    |s.threads| - 1
  }

  /** The last thread to come wakes the others and goes on. */
  function Broadcast(s: State, i: nat): State
    requires i < |s.threads|
  {
    s.(threads := seq(|s.threads|, j requires 0 <= j < |s.threads| =>
      if j == i then Thread(s.threads[i].round + 1, Running)
      else if s.threads[j].phase == Waiting then s.threads[j].(phase := Woken)
      else s.threads[j]))
  }

  /** WAIT_INIT or WAIT_FINISH, as far as the wait. */
  function Enter(s: State, i: nat): State
    requires i < |s.threads|
  {
    var t := s.threads[i];
    var wait := s.threads[i := t.(phase := Waiting)];
    if t.round % 2 == 0 then
      if s.count < Nthreads(s) then State(s.count + 1, wait) else Broadcast(s, i)
    else
      if s.count > 0 then State(s.count - 1, wait) else Broadcast(s, i)
  }

  /** A woken thread gets the mutex back and leaves. */
  function Leave(s: State, i: nat): State
    requires i < |s.threads|
  {
    s.(threads := s.threads[i := Thread(s.threads[i].round + 1, Running)])
  }

  ghost predicate Step(s: State, i: nat, s': State) {
    && i < |s.threads|
    && ((s.threads[i].phase == Running && s' == Enter(s, i)) || (s.threads[i].phase == Woken && s' == Leave(s, i)))
  }

  /** A run: any interleaving of any length. */
  datatype Run = Start(s: State) | Then(before: Run, i: nat, s: State)

  ghost predicate Possible(r: Run) {
    match r
    case Start(s) => Init(s)
    case Then(before, i, s) => Possible(before) && Step(before.s, i, s)
  }

  ghost function In(s: State, p: Phase): set<nat> {
    set i: nat | i < |s.threads| && s.threads[i].phase == p
  }

  /** Everyone is on the way to barrier `k`, waits in it, or is about to leave the one
      before; the counter says how many wait, and somebody does not. */
  ghost predicate Inv(s: State, k: nat) {
    && |s.threads| > 1
    && (forall i :: 0 <= i < |s.threads| ==>
          s.threads[i].round + (if s.threads[i].phase == Woken then 1 else 0) == k)
    && s.count == (if k % 2 == 0 then |In(s, Waiting)| else Nthreads(s) - |In(s, Waiting)|)
    && |In(s, Waiting)| <= Nthreads(s)
  }

  ghost function Upto(n: nat): (a: set<nat>)
    ensures |a| == n && forall i: nat :: i in a <==> i < n
  {
    if n == 0 then {} else Upto(n - 1) + {n - 1}
  }

  /** When all but one wait, the one is the only one left. */
  lemma AllOthersWait(s: State, i: nat)
    requires i < |s.threads| && s.threads[i].phase != Waiting && |In(s, Waiting)| == Nthreads(s)
    ensures forall j :: 0 <= j < |s.threads| && j != i ==> s.threads[j].phase == Waiting
  {
    var all := Upto(|s.threads|);
    forall j | 0 <= j < |s.threads| && j != i
      ensures s.threads[j].phase == Waiting
    {
      if j !in In(s, Waiting) {
        assert In(s, Waiting) <= all - {i} - {j};
        assert |all - {i} - {j}| == |all| - 2;
        SubsetSize(In(s, Waiting), all - {i} - {j});
      }
    }
  }

  lemma SubsetSize(a: set<nat>, b: set<nat>)
    requires a <= b
    ensures |a| <= |b|
  {
    assert b == a + (b - a);
  }

  /** How much is left to do before the next broadcast. */
  ghost function Left(s: State): nat {
    |In(s, Running)| + 2 * |In(s, Woken)|
  }

  lemma InMoved(s: State, t: State, i: nat, q: Phase)
    requires OneMoved(s, t, i)
    ensures forall j: nat :: j in In(t, q) <==> if j == i then t.threads[i].phase == q else j in In(s, q)
    ensures i in In(s, q) <==> s.threads[i].phase == q
  {
  }

  /** Only thread `i` has changed its phase. */
  ghost predicate OneMoved(s: State, t: State, i: nat) {
    && i < |s.threads| == |t.threads| && s.threads[i].phase != t.threads[i].phase
    && forall j :: 0 <= j < |s.threads| && j != i ==> t.threads[j].phase == s.threads[j].phase
  }

  /** What moving one thread does to who is in phase `q`. */
  lemma Moved(s: State, t: State, i: nat, q: Phase)
    requires OneMoved(s, t, i)
    ensures |In(t, q)| == |In(s, q)| + (if q == t.threads[i].phase then 1 else 0) - if q == s.threads[i].phase then 1 else 0
  {
    hide In;
    InMoved(s, t, i, q);
    var a, b := In(s, q), In(t, q);
    if q == s.threads[i].phase {
      assert b == a - {i};
    } else if q == t.threads[i].phase {
      assert b == a + {i};
    } else {
      assert b == a;
    }
  }

  lemma EnterAndWait(s: State, i: nat, k: nat)
    requires Inv(s, k) && i < |s.threads| && s.threads[i].phase == Running && |In(s, Waiting)| < Nthreads(s)
    ensures Inv(Enter(s, i), k) && Left(Enter(s, i)) < Left(s)
  {
    hide Broadcast, In;
    var s' := Enter(s, i);
    assert s'.threads == s.threads[i := s.threads[i].(phase := Waiting)];
    Moved(s, s', i, Waiting);
    Moved(s, s', i, Running);
    Moved(s, s', i, Woken);
  }

  lemma NobodyIn(s: State, q: Phase)
    requires forall i :: 0 <= i < |s.threads| ==> s.threads[i].phase != q
    ensures In(s, q) == {}
  {
  }

  lemma EnterAndWake(s: State, i: nat, k: nat)
    requires Inv(s, k) && i < |s.threads| && s.threads[i].phase == Running && |In(s, Waiting)| == Nthreads(s)
    ensures Inv(Enter(s, i), k + 1)
  {
    hide In;
    AllOthersWait(s, i);
    assert Enter(s, i) == Broadcast(s, i);
    NobodyIn(Broadcast(s, i), Waiting);
  }

  lemma EnterKeeps(s: State, i: nat, k: nat) returns (k': nat)
    requires Inv(s, k) && i < |s.threads| && s.threads[i].phase == Running
    ensures Inv(Enter(s, i), k') && (k' == k + 1 || (k' == k && Left(Enter(s, i)) < Left(s)))
  {
    hide Enter, Left;
    if |In(s, Waiting)| < Nthreads(s) {
      k' := k;
      EnterAndWait(s, i, k);
    } else {
      k' := k + 1;
      EnterAndWake(s, i, k);
    }
  }

  lemma LeaveKeeps(s: State, i: nat, k: nat)
    requires Inv(s, k) && i < |s.threads| && s.threads[i].phase == Woken
    ensures Inv(Leave(s, i), k) && Left(Leave(s, i)) < Left(s)
  {
    hide In;
    var s' := Leave(s, i);
    Moved(s, s', i, Waiting);
    Moved(s, s', i, Running);
    Moved(s, s', i, Woken);
  }

  /** The round that a run has come to. */
  lemma {:induction false} EveryRunKeeps(r: Run) returns (k: nat)
    requires Possible(r)
    ensures Inv(r.s, k)
  {
    match r
    case Start(s) =>
      k := 0;
      assert In(s, Waiting) == {};
    case Then(before, i, s) =>
      var k0 := EveryRunKeeps(before);
      if before.s.threads[i].phase == Running {
        k := EnterKeeps(before.s, i, k0);
      } else {
        k := k0;
        LeaveKeeps(before.s, i, k0);
      }
  }

  /** The barriers a thread has entered so far; `round` is the number it has left. */
  function Entered(t: Thread): nat {
    t.round + if t.phase == Running then 0 else 1
  }

  /** Nobody leaves a barrier before everybody has entered it. */
  lemma NobodyLeavesEarly(r: Run, i: nat, j: nat)
    requires Possible(r) && i < |r.s.threads| && j < |r.s.threads|
    ensures r.s.threads[i].round <= Entered(r.s.threads[j])
  {
    var k := EveryRunKeeps(r);
  }

  lemma SomebodyDoesNotWait(s: State, k: nat) returns (i: nat)
    requires Inv(s, k)
    ensures i < |s.threads| && s.threads[i].phase != Waiting
  {
    var all := Upto(|s.threads|);
    assert In(s, Waiting) <= all && |all - In(s, Waiting)| == |all| - |In(s, Waiting)|;
    i :| i in all - In(s, Waiting);
  }

  /** Nobody is left waiting in a barrier that everybody has entered: no wakeup is lost,
      not even to a thread that is already back for the next one. */
  lemma NobodyIsForgotten(r: Run, b: nat)
    requires Possible(r) && forall j :: 0 <= j < |r.s.threads| ==> Entered(r.s.threads[j]) > b
    ensures forall i :: 0 <= i < |r.s.threads| && r.s.threads[i].round == b ==> r.s.threads[i].phase == Woken
  {
    var k := EveryRunKeeps(r);
    var q := SomebodyDoesNotWait(r.s, k);
    assert Entered(r.s.threads[q]) > b;
  }

  /** Somebody can always move, and every move brings the next broadcast closer: in any
      schedule every barrier is passed. */
  lemma EveryBarrierIsPassed(r: Run) returns (k: nat, i: nat)
    requires Possible(r)
    ensures Inv(r.s, k) && i < |r.s.threads| && r.s.threads[i].phase != Waiting
    ensures forall j: nat, s :: Step(r.s, j, s) ==>
              Inv(s, k + 1) || (Inv(s, k) && Left(s) < Left(r.s))
  {
    k := EveryRunKeeps(r);
    var s := r.s;
    i := SomebodyDoesNotWait(s, k);
    forall j: nat, t | Step(s, j, t)
      ensures Inv(t, k + 1) || (Inv(t, k) && Left(t) < Left(s))
    {
      if s.threads[j].phase == Running {
        var k' := EnterKeeps(s, j, k);
      } else {
        LeaveKeeps(s, j, k);
      }
    }
  }

  /** The threads at work are at work on the same job; while the master prepares the
      next one, no worker is at work on any. */
  lemma OneJobAtATime(r: Run, i: nat, j: nat)
    requires Possible(r) && i < |r.s.threads| && j < |r.s.threads|
    requires r.s.threads[i].phase == Running && r.s.threads[j].phase == Running
    ensures r.s.threads[i].round == r.s.threads[j].round
  {
    var k := EveryRunKeeps(r);
  }

  /** A thread woken for no reason goes on, since the wait is not in a loop. */
  function WakeSpuriously(s: State, i: nat): State
    requires i < |s.threads|
  {
    Leave(s, i)
  }

  /** What the barrier is for: nobody has left a barrier that somebody has not entered. */
  ghost predicate Safe(s: State) {
    forall i, j :: 0 <= i < |s.threads| && 0 <= j < |s.threads| ==> s.threads[i].round <= Entered(s.threads[j])
  }

  /** In whatever state it comes, a wakeup for no reason takes its thread through a barrier
      that somebody else has not entered; one that a broadcast has caused never does. */
  lemma SpuriousWakeupBreaksIt(r: Run, i: nat)
    requires Possible(r) && i < |r.s.threads| && r.s.threads[i].phase != Running
    ensures Safe(WakeSpuriously(r.s, i)) <==> r.s.threads[i].phase == Woken
    ensures r.s.threads[i].phase == Waiting ==>
              exists j: nat :: j < |r.s.threads| && j != i
                && WakeSpuriously(r.s, i).threads[i].round > Entered(WakeSpuriously(r.s, i).threads[j])
  {
    var k := EveryRunKeeps(r);
    var t := WakeSpuriously(r.s, i);
    if r.s.threads[i].phase == Waiting {
      var j := SomebodyDoesNotWait(r.s, k);
      assert t.threads[i].round > Entered(t.threads[j]);
    }
  }

  /** There is such a moment in some run, for any number of workers. */
  lemma SomebodyCanWait(s: State) returns (r: Run)
    requires Init(s)
    ensures Possible(r) && r.s.threads[0].phase == Waiting && |r.s.threads| == |s.threads|
  {
    r := Then(Start(s), 0, Enter(s, 0));
  }
}
