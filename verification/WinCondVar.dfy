/** Condition variables on Windows, as Blosc uses them: wait and broadcast with the
    external mutex held (c-blosc2/blosc/win32/pthread.c:113-164, 194-221). What a thread
    does inside one critical section of `waiters_lock` is one step, and so is every call
    on the mutex, the semaphore and the event; any thread may take the next step. */
module WinCondVar {
  /** Where a thread is. `Idle` and `Contending` are outside the mutex, `Holding` is
      inside it but not in the condition variable; the others are in pthread_cond_wait
      or pthread_cond_broadcast. */
  datatype Pc =
    | Idle
    | Holding
    | Counted
    | Sleeping
    | Awake
    | Going(last: bool)
    | Contending
    | Broadcasting
    | Resetting

  /** `owner` holds the mutex. `target` is who waited when the last broadcast began, and
      `took` who has taken a unit of the semaphore since: these two only watch. */
  datatype State = State(pcs: seq<Pc>, owner: int, waiters: int, wasBroadcast: bool, sema: nat, event: bool,
                         target: set<nat>, took: multiset<nat>)

  datatype Action =
    | Lock | Unlock
    | EnterWait | LeaveMutex | TakeUnit | CountDown | Tell | Relock
    | Broadcast | Continue | Reset

  const NOBODY := -1

  ghost function In(pcs: seq<Pc>, p: Pc): set<nat> {
    set i: nat | i < |pcs| && pcs[i] == p
  }

  /** A step is possible: what a call waits for is there. */
  predicate Enabled(s: State, i: nat, a: Action) {
    i < |s.pcs| &&
    match a
    case Lock => s.pcs[i] == Idle && s.owner == NOBODY
    case Unlock => s.pcs[i] == Holding
    case EnterWait => s.pcs[i] == Holding
    case LeaveMutex => s.pcs[i] == Counted
    case TakeUnit => s.pcs[i] == Sleeping && s.sema > 0
    case CountDown => s.pcs[i] == Awake
    case Tell => s.pcs[i].Going?
    case Relock => s.pcs[i] == Contending && s.owner == NOBODY
    case Broadcast => s.pcs[i] == Holding
    case Continue => s.pcs[i] == Broadcasting && s.event
    case Reset => s.pcs[i] == Resetting
  }

  function Goto(s: State, i: nat, p: Pc): State
    requires i < |s.pcs|
  {
    s.(pcs := s.pcs[i := p])
  }

  ghost function Do(s: State, i: nat, a: Action): State
    requires Enabled(s, i, a)
  {
    match a
    case Lock => Goto(s, i, Holding).(owner := i)
    case Unlock => Goto(s, i, Idle).(owner := NOBODY)
    case EnterWait => Goto(s, i, Counted).(waiters := s.waiters + 1)
    case LeaveMutex => Goto(s, i, Sleeping).(owner := NOBODY)
    case TakeUnit => Goto(s, i, Awake).(sema := s.sema - 1, took := s.took + multiset{i})
    case CountDown =>
      Goto(s, i, Going(s.wasBroadcast && s.waiters - 1 == 0)).(waiters := s.waiters - 1)
    case Tell => Goto(s, i, Contending).(event := s.event || s.pcs[i].last)
    case Relock => Goto(s, i, Holding).(owner := i)
    case Broadcast =>
      var t := s.(target := In(s.pcs, Sleeping), took := multiset{}, wasBroadcast := s.waiters > 0);
      if s.waiters > 0 then Goto(t, i, Broadcasting).(sema := s.sema + s.waiters) else t
    case Continue => Goto(s, i, Resetting).(event := false)
    case Reset => Goto(s, i, Holding).(wasBroadcast := false)
  }

  ghost predicate Init(s: State) {
    && (forall i :: 0 <= i < |s.pcs| ==> s.pcs[i] == Idle)
    && s.owner == NOBODY && s.waiters == 0 && !s.wasBroadcast && s.sema == 0 && !s.event
  }

  datatype Run = Start(s: State) | Then(before: Run, i: nat, a: Action, s: State)

  ghost predicate Possible(r: Run) {
    match r
    case Start(s) => Init(s)
    case Then(before, i, a, s) => Possible(before) && Enabled(before.s, i, a) && s == Do(before.s, i, a)
  }

  predicate HoldsMutex(p: Pc) {
    p == Holding || p == Counted || p == Broadcasting || p == Resetting
  }

  predicate InBroadcast(s: State) {
    0 <= s.owner < |s.pcs| && (s.pcs[s.owner] == Broadcasting || s.pcs[s.owner] == Resetting)
  }

  /** The mutex works, the counter counts, and outside a broadcast nobody can wake. */
  ghost predicate Quiet(s: State) {
    !s.wasBroadcast && s.sema == 0 && !s.event && In(s.pcs, Awake) == {} && In(s.pcs, Going(true)) == {}
  }

  /** While a broadcast waits, there is a unit of the semaphore for each thread that
      still sleeps; the last one to count down tells the broadcast, just once. */
  ghost predicate Underway(s: State) {
    && s.wasBroadcast && s.sema == |In(s.pcs, Sleeping)|
    && In(s.pcs, Sleeping) <= s.target && s.took == multiset(s.target - In(s.pcs, Sleeping))
    && (s.waiters > 0 ==> !s.event && In(s.pcs, Going(true)) == {})
    && (s.waiters == 0 ==> if s.event then In(s.pcs, Going(true)) == {} else |In(s.pcs, Going(true))| == 1)
  }

  ghost predicate Over(s: State) {
    && s.wasBroadcast && s.sema == 0 && !s.event && s.waiters == 0 && In(s.pcs, Going(true)) == {}
    && s.took == multiset(s.target)
  }

  ghost predicate Inv(s: State) {
    && (forall i :: 0 <= i < |s.pcs| ==> (HoldsMutex(s.pcs[i]) <==> i == s.owner))
    && s.owner < |s.pcs|
    && s.waiters == |In(s.pcs, Counted)| + |In(s.pcs, Sleeping)| + |In(s.pcs, Awake)|
    && (if !InBroadcast(s) then Quiet(s)
        else if s.pcs[s.owner] == Broadcasting then Underway(s) else Over(s))
  }

  lemma InMoved(a: seq<Pc>, b: seq<Pc>, i: nat, p: Pc, q: Pc)
    requires i < |a| && b == a[i := p]
    ensures forall j: nat :: j in In(b, q) <==> if j == i then q == p else j in In(a, q)
    ensures i in In(a, q) <==> q == a[i]
  {
  }

  /** What moving one thread to `p` does to who is at `q`. */
  lemma MovedAt(s: State, t: State, i: nat, p: Pc, q: Pc)
    requires i < |s.pcs| && t.pcs == s.pcs[i := p] && s.pcs[i] != p
    ensures i in In(s.pcs, q) <==> q == s.pcs[i]
    ensures In(t.pcs, q) == if q == s.pcs[i] then In(s.pcs, q) - {i} else if q == p then In(s.pcs, q) + {i} else In(s.pcs, q)
    ensures |In(t.pcs, q)| == if q == s.pcs[i] then |In(s.pcs, q)| - 1 else if q == p then |In(s.pcs, q)| + 1 else |In(s.pcs, q)|
  {
    hide In;
    var a, b := In(s.pcs, q), In(t.pcs, q);
    InMoved(s.pcs, t.pcs, i, p, q);
    if q == s.pcs[i] {
      assert b == a - {i};
    } else if q == p {
      assert b == a + {i};
    } else {
      assert b == a;
    }
  }

  lemma Moved(s: State, t: State, i: nat, p: Pc)
    requires i < |s.pcs| && t.pcs == s.pcs[i := p] && s.pcs[i] != p
    ensures forall q :: q == Counted || q == Sleeping || q == Awake || q == Going(true) ==>
              && (i in In(s.pcs, q) <==> q == s.pcs[i])
              && In(t.pcs, q) == (if q == s.pcs[i] then In(s.pcs, q) - {i} else if q == p then In(s.pcs, q) + {i} else In(s.pcs, q))
              && |In(t.pcs, q)| == if q == s.pcs[i] then |In(s.pcs, q)| - 1 else if q == p then |In(s.pcs, q)| + 1 else |In(s.pcs, q)|
  {
    hide In;
    MovedAt(s, t, i, p, Counted);
    MovedAt(s, t, i, p, Sleeping);
    MovedAt(s, t, i, p, Awake);
    MovedAt(s, t, i, p, Going(true));
  }

  lemma LockKeeps(s: State, i: nat)
    requires Inv(s) && Enabled(s, i, Lock)
    ensures Inv(Do(s, i, Lock))
  {
    hide In;
    var t := Do(s, i, Lock);
    Moved(s, t, i, t.pcs[i]);
  }

  lemma UnlockKeeps(s: State, i: nat)
    requires Inv(s) && Enabled(s, i, Unlock)
    ensures Inv(Do(s, i, Unlock))
  {
    hide In;
    var t := Do(s, i, Unlock);
    Moved(s, t, i, t.pcs[i]);
  }

  lemma EnterWaitKeeps(s: State, i: nat)
    requires Inv(s) && Enabled(s, i, EnterWait)
    ensures Inv(Do(s, i, EnterWait))
  {
    hide In;
    var t := Do(s, i, EnterWait);
    Moved(s, t, i, t.pcs[i]);
  }

  lemma LeaveMutexKeeps(s: State, i: nat)
    requires Inv(s) && Enabled(s, i, LeaveMutex)
    ensures Inv(Do(s, i, LeaveMutex))
  {
    hide In;
    var t := Do(s, i, LeaveMutex);
    Moved(s, t, i, t.pcs[i]);
  }

  lemma RelockKeeps(s: State, i: nat)
    requires Inv(s) && Enabled(s, i, Relock)
    ensures Inv(Do(s, i, Relock))
  {
    hide In;
    var t := Do(s, i, Relock);
    Moved(s, t, i, t.pcs[i]);
  }

  lemma CountDownKeeps(s: State, i: nat)
    requires Inv(s) && Enabled(s, i, CountDown)
    ensures Inv(Do(s, i, CountDown))
  {
    hide In;
    var t := Do(s, i, CountDown);
    Moved(s, t, i, t.pcs[i]);
  }

  lemma TellKeeps(s: State, i: nat)
    requires Inv(s) && Enabled(s, i, Tell)
    ensures Inv(Do(s, i, Tell))
  {
    hide In;
    var t := Do(s, i, Tell);
    Moved(s, t, i, t.pcs[i]);
  }

  lemma ContinueKeeps(s: State, i: nat)
    requires Inv(s) && Enabled(s, i, Continue)
    ensures Inv(Do(s, i, Continue))
  {
    hide In;
    var t := Do(s, i, Continue);
    Moved(s, t, i, t.pcs[i]);
  }

  lemma ResetKeeps(s: State, i: nat)
    requires Inv(s) && Enabled(s, i, Reset)
    ensures Inv(Do(s, i, Reset))
  {
    hide In;
    var t := Do(s, i, Reset);
    Moved(s, t, i, t.pcs[i]);
  }

  lemma TakeUnitKeeps(s: State, i: nat)
    requires Inv(s) && Enabled(s, i, TakeUnit)
    ensures Inv(Do(s, i, TakeUnit))
  {
    hide In;
    var t := Do(s, i, TakeUnit);
    Moved(s, t, i, t.pcs[i]);
    assert s.target - In(t.pcs, Sleeping) == (s.target - In(s.pcs, Sleeping)) + {i};
  }

  lemma NobodyElseHolds(s: State, i: nat, p: Pc)
    requires Inv(s) && i < |s.pcs| && i == s.owner && s.pcs[i] != p && HoldsMutex(p)
    ensures In(s.pcs, p) == {}
  {
  }

  lemma BroadcastKeeps(s: State, i: nat)
    requires Inv(s) && Enabled(s, i, Broadcast)
    ensures Inv(Do(s, i, Broadcast))
  {
    hide In;
    var t := Do(s, i, Broadcast);
    NobodyElseHolds(s, i, Counted);
    assert In(s.pcs, Sleeping) - In(s.pcs, Sleeping) == {};
    if s.waiters > 0 {
      Moved(s, t, i, t.pcs[i]);
    }
  }

  lemma {:induction false} EveryRunKeeps(r: Run)
    requires Possible(r)
    ensures Inv(r.s)
  {
    hide Inv, Do, Enabled;
    match r
    case Start(s) => InitKeeps(s);
    case Then(before, i, a, s) =>
      EveryRunKeeps(before);
      match a
      case Lock => LockKeeps(before.s, i);
      case Unlock => UnlockKeeps(before.s, i);
      case EnterWait => EnterWaitKeeps(before.s, i);
      case LeaveMutex => LeaveMutexKeeps(before.s, i);
      case TakeUnit => TakeUnitKeeps(before.s, i);
      case CountDown => CountDownKeeps(before.s, i);
      case Tell => TellKeeps(before.s, i);
      case Relock => RelockKeeps(before.s, i);
      case Broadcast => BroadcastKeeps(before.s, i);
      case Continue => ContinueKeeps(before.s, i);
      case Reset => ResetKeeps(before.s, i);
  }

  lemma InitKeeps(s: State)
    requires Init(s)
    ensures Inv(s)
  {
    assert In(s.pcs, Counted) == {} && In(s.pcs, Sleeping) == {} && In(s.pcs, Awake) == {};
  }

  // ----- What a caller can rely on -----

  /** Nobody wakes but in a broadcast, and only those who waited when it began; each of
      them takes one unit of the semaphore, not two. */
  lemma OnlyABroadcastWakes(r: Run, i: nat)
    requires Possible(r) && Enabled(r.s, i, TakeUnit)
    ensures InBroadcast(r.s) && i in r.s.target && r.s.took[i] == 0
  {
    EveryRunKeeps(r);
    assert i in In(r.s.pcs, Sleeping);
  }

  /** A broadcast returns only when all who waited have taken their unit, exactly one
      each, with nobody waiting, the semaphore empty and the flag down. */
  lemma BroadcastReturnsDone(r: Run, i: nat)
    requires Possible(r) && Enabled(r.s, i, Reset)
    ensures var t := Do(r.s, i, Reset);
            && t.took == multiset(t.target) && t.waiters == 0 && t.sema == 0 && !t.wasBroadcast && !t.event
            && forall j: nat :: j < |t.pcs| ==> t.pcs[j] != Sleeping && t.pcs[j] != Awake && t.pcs[j] != Counted
  {
    EveryRunKeeps(r);
    var s := r.s;
    assert In(s.pcs, Sleeping) == {} && In(s.pcs, Awake) == {} && In(s.pcs, Counted) == {};
    forall j: nat | j < |s.pcs|
      ensures s.pcs[j] != Sleeping && s.pcs[j] != Awake && s.pcs[j] != Counted
    {
      assert j !in In(s.pcs, Sleeping) && j !in In(s.pcs, Awake) && j !in In(s.pcs, Counted);
    }
  }

  /** The steps of pthread_cond_wait and pthread_cond_broadcast that do not need the mutex. */
  predicate Inner(a: Action) {
    a.TakeUnit? || a.CountDown? || a.Tell? || a.Continue? || a.Reset?
  }

  /** What is left to do before a broadcast returns. */
  ghost function Left(s: State): nat {
    3 * |In(s.pcs, Sleeping)| + 2 * |In(s.pcs, Awake)| + |In(s.pcs, Going(true))| + |In(s.pcs, Going(false))|
    + 2 * |In(s.pcs, Broadcasting)| + |In(s.pcs, Resetting)|
  }

  lemma LeftDrops(s: State, i: nat, a: Action)
    requires Enabled(s, i, a) && Inner(a)
    ensures Left(Do(s, i, a)) < Left(s)
  {
    hide In;
    var t := Do(s, i, a);
    var p := t.pcs[i];
    MovedAt(s, t, i, p, Sleeping);
    MovedAt(s, t, i, p, Awake);
    MovedAt(s, t, i, p, Going(true));
    MovedAt(s, t, i, p, Going(false));
    MovedAt(s, t, i, p, Broadcasting);
    MovedAt(s, t, i, p, Resetting);
  }

  /** A broadcast cannot hang: while it lasts some thread can move, and every step there
      can be brings its end closer. */
  lemma BroadcastReturns(r: Run) returns (i: nat, a: Action)
    requires Possible(r) && InBroadcast(r.s)
    ensures Enabled(r.s, i, a)
    ensures forall j: nat, b :: Enabled(r.s, j, b) ==> Left(Do(r.s, j, b)) < Left(r.s)
  {
    EveryRunKeeps(r);
    var s := r.s;
    forall j: nat, b | Enabled(s, j, b)
      ensures Left(Do(s, j, b)) < Left(s)
    {
      LeftDrops(s, j, b);
    }
    i, a := SomebodyMoves(s);
  }

  lemma SomebodyMoves(s: State) returns (i: nat, a: Action)
    requires Inv(s) && InBroadcast(s)
    ensures Enabled(s, i, a)
  {
    if s.pcs[s.owner] == Resetting {
      return s.owner, Reset;
    }
    if s.event {
      return s.owner, Continue;
    }
    if s.waiters == 0 {
      i :| i in In(s.pcs, Going(true));
      return i, Tell;
    }
    NobodyElseHolds(s, s.owner, Counted);
    if In(s.pcs, Awake) != {} {
      i :| i in In(s.pcs, Awake);
      return i, CountDown;
    }
    i :| i in In(s.pcs, Sleeping);
    a := TakeUnit;
  }
}
