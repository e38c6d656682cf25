// Schedules under which a writer never gets the lock, although every thread is scheduled again and again.
module RwLockStarvation {
  import opened Common
  import opened RwLock
  import opened RwLockProof
  import opened RwLockProgress

  // Every thread, blocked or not, is scheduled again and again.
  ghost predicate EveryTurn(n: nat, sched: nat -> Action) {
    forall t: nat, m: nat | t < n :: Again(sched, t, m)
  }

  // ---- Runs that go round ----

  // After step j comes the next, after the last one that at `back`.
  function Next(n: nat, back: nat, j: nat): (i: nat)
    requires back < n && j < n
    ensures i < n
  {
    if j + 1 < n then j + 1 else back
  }

  function Index(n: nat, back: nat, k: nat): (j: nat)
    requires back < n
    ensures j < n
  {
    if k == 0 then 0 else Next(n, back, Index(n, back, k - 1))
  }

  ghost predicate Follows(s: State, a: Action, r: State) {
    |s.at| == |s.waiter| && Step(s, a) == r
  }

  // The states and actions of a run of two threads that goes round from `back` on.
  ghost predicate Lasso(state: nat -> State, action: nat -> Action, n: nat, back: nat) {
    && back < n
    && state(0) == Init(2)
    && forall j: nat | j < n :: Follows(state(j), action(j), state(Next(n, back, j)))
  }

  // The schedule follows the actions round.
  ghost predicate Periodic(sched: nat -> Action, action: nat -> Action, n: nat, back: nat) {
    back < n && forall i: nat :: sched(i) == action(Index(n, back, i))
  }

  lemma {:induction false} LassoRuns(state: nat -> State, action: nat -> Action, sched: nat -> Action, n: nat, back: nat, k: nat)
    requires Lasso(state, action, n, back) && Periodic(sched, action, n, back)
    ensures back < n && At(2, sched, k) == state(Index(n, back, k))
  {
    hide Step, Inv, Init, Lasso, Periodic, At, Index;
    LassoStarts(state, action, n, back);
    IndexSteps(n, back, k);
    AtSteps(2, sched, k);
    if k > 0 {
      LassoRuns(state, action, sched, n, back, k - 1);
      LassoFollows(state, action, n, back, Index(n, back, k - 1));
      PeriodicAt(sched, action, n, back, k - 1);
    }
  }

  lemma PeriodicAt(sched: nat -> Action, action: nat -> Action, n: nat, back: nat, i: nat)
    requires Periodic(sched, action, n, back)
    ensures back < n && sched(i) == action(Index(n, back, i))
  {}

  lemma IndexSteps(n: nat, back: nat, k: nat)
    requires back < n
    ensures Index(n, back, k) == if k == 0 then 0 else Next(n, back, Index(n, back, k - 1))
  {}

  lemma AtSteps(n: nat, sched: nat -> Action, k: nat)
    ensures At(n, sched, k) == if k == 0 then Init(n) else Step(At(n, sched, k - 1), sched(k - 1))
  {
    hide Step, Inv, Init;
  }

  lemma LassoStarts(state: nat -> State, action: nat -> Action, n: nat, back: nat)
    requires Lasso(state, action, n, back)
    ensures back < n && state(0) == Init(2)
  {}

  lemma LassoFollows(state: nat -> State, action: nat -> Action, n: nat, back: nat, j: nat)
    requires Lasso(state, action, n, back) && j < n
    ensures Follows(state(j), action(j), state(Next(n, back, j)))
  {}

  // Every place of the loop comes again.
  lemma {:induction false} ComesAgain(n: nat, back: nat, m: nat, j: nat) returns (k: nat)
    requires back <= j < n
    ensures m <= k && Index(n, back, k) == j
    decreases var i := Index(n, back, m); if i <= j then j - i else 2 * n - i
  {
    if Index(n, back, m) == j {
      k := m;
    } else {
      assert Index(n, back, m + 1) == Next(n, back, Index(n, back, m));
      k := ComesAgain(n, back, m + 1, j);
    }
  }

  // Past the first n steps the run is in the loop.
  lemma {:induction false} InLoop(n: nat, back: nat, k: nat)
    requires back < n && back <= k
    ensures back <= Index(n, back, k)
    decreases k
  {
    if k > back { InLoop(n, back, k - 1); } else { Straight(n, back, k); }
  }

  lemma {:induction false} Straight(n: nat, back: nat, k: nat)
    requires back < n && k < n
    ensures Index(n, back, k) == k
  {
    if k > 0 { Straight(n, back, k - 1); }
  }

  // Both threads have a turn in the loop, so both have turns again and again.
  lemma LoopTurns(action: nat -> Action, sched: nat -> Action, n: nat, back: nat, i: nat, j: nat)
    requires back <= i < n && back <= j < n
    requires action(i).t == 0 && action(j).t == 1
    requires Periodic(sched, action, n, back)
    ensures EveryTurn(2, sched)
  {
    hide Periodic;
    forall t: nat, m: nat | t < 2 ensures Again(sched, t, m) {
      var k := ComesAgain(n, back, m, if t == 0 then i else j);
      PeriodicAt(sched, action, n, back, k);
      assert sched(k).t == t;
    }
  }

  function Snap(p: Place, q: Place, holder: Option<Tid>, value: nat, waiters: seq<Tid>, write: seq<Tid>, own: Sema,
                AR: int, AW: int, WW: int): State
  {
    State([p, q], Lock(holder, Sema(value, waiters)), [], write, [own, Sema(0, [])], AR, 0, AW, WW)
  }

  // ---- Overtaken by other writers ----

  // Thread 1 acquires and releases as writer over and over; thread 0 waits as writer, is signalled at each
  // release, and finds the lock taken again.
  function OvertakenState(j: nat): State {
    match j
    case 0 => Snap(Outside, Outside, None, 1, [], [], Sema(0, []), 0, 0, 0)
    case 1 => Snap(Outside, Downing(Acquire(Writer)), None, 1, [], [], Sema(0, []), 0, 0, 0)
    case 2 => Snap(Outside, Owning(Acquire(Writer)), None, 0, [], [], Sema(0, []), 0, 0, 0)
    case 3 => Snap(Outside, Inside(Acquire(Writer)), Some(1), 0, [], [], Sema(0, []), 0, 0, 0)
    case 4 => Snap(Outside, Unholding(BeHolding(Writer)), Some(1), 0, [], [], Sema(0, []), 0, 1, 0)
    case 5 => Snap(Outside, Upping(BeHolding(Writer)), None, 0, [], [], Sema(0, []), 0, 1, 0)
    case 6 => Snap(Outside, Holding(Writer), None, 1, [], [], Sema(0, []), 0, 1, 0)
    case 7 => Snap(Downing(Acquire(Writer)), Holding(Writer), None, 1, [], [], Sema(0, []), 0, 1, 0)
    case 8 => Snap(Owning(Acquire(Writer)), Holding(Writer), None, 0, [], [], Sema(0, []), 0, 1, 0)
    case 9 => Snap(Inside(Acquire(Writer)), Holding(Writer), Some(0), 0, [], [], Sema(0, []), 0, 1, 0)
    case 10 => Snap(Unholding(BeWaiting(Writer)), Holding(Writer), Some(0), 0, [], [0], Sema(0, []), 0, 1, 1)
    case 11 => Snap(Upping(BeWaiting(Writer)), Holding(Writer), None, 0, [], [0], Sema(0, []), 0, 1, 1)
    case 12 => Snap(Waiting(Writer), Holding(Writer), None, 1, [], [0], Sema(0, []), 0, 1, 1)
    case 13 => Snap(WaitBlocked(Writer), Holding(Writer), None, 1, [], [0], Sema(0, [0]), 0, 1, 1)
    case 14 => Snap(WaitBlocked(Writer), Holding(Writer), None, 1, [], [0], Sema(0, [0]), 0, 1, 1)
    case 15 => Snap(WaitBlocked(Writer), Downing(Release(Writer)), None, 1, [], [0], Sema(0, [0]), 0, 1, 1)
    case 16 => Snap(WaitBlocked(Writer), Owning(Release(Writer)), None, 0, [], [0], Sema(0, [0]), 0, 1, 1)
    case 17 => Snap(WaitBlocked(Writer), Inside(Release(Writer)), Some(1), 0, [], [0], Sema(0, [0]), 0, 1, 1)
    case 18 => Snap(WaitBlocked(Writer), Signalling, Some(1), 0, [], [0], Sema(0, [0]), 0, 0, 1)
    case 19 => Snap(Waiting(Writer), Unholding(BeOutside), Some(1), 0, [], [], Sema(1, []), 0, 0, 1)
    case 20 => Snap(Waiting(Writer), Upping(BeOutside), None, 0, [], [], Sema(1, []), 0, 0, 1)
    case 21 => Snap(Waiting(Writer), Outside, None, 1, [], [], Sema(1, []), 0, 0, 1)
    case 22 => Snap(Waiting(Writer), Downing(Acquire(Writer)), None, 1, [], [], Sema(1, []), 0, 0, 1)
    case 23 => Snap(Waiting(Writer), Owning(Acquire(Writer)), None, 0, [], [], Sema(1, []), 0, 0, 1)
    case 24 => Snap(Waiting(Writer), Inside(Acquire(Writer)), Some(1), 0, [], [], Sema(1, []), 0, 0, 1)
    case 25 => Snap(Waiting(Writer), Unholding(BeHolding(Writer)), Some(1), 0, [], [], Sema(1, []), 0, 1, 1)
    case 26 => Snap(Waiting(Writer), Upping(BeHolding(Writer)), None, 0, [], [], Sema(1, []), 0, 1, 1)
    case 27 => Snap(Waiting(Writer), Holding(Writer), None, 1, [], [], Sema(1, []), 0, 1, 1)
    case 28 => Snap(Downing(Rewait(Writer)), Holding(Writer), None, 1, [], [], Sema(0, []), 0, 1, 1)
    case 29 => Snap(Owning(Rewait(Writer)), Holding(Writer), None, 0, [], [], Sema(0, []), 0, 1, 1)
    case _ => Snap(Inside(Rewait(Writer)), Holding(Writer), Some(0), 0, [], [], Sema(0, []), 0, 1, 1)
  }

  function OvertakenAction(j: nat): Action {
    if j <= 0 then Start(1, Writer)
    else if j <= 5 then Go(1)
    else if j <= 6 then Start(0, Writer)
    else if j <= 13 then Go(0)
    else if j <= 20 then Go(1)
    else if j <= 21 then Start(1, Writer)
    else if j <= 26 then Go(1)
    else Go(0)
  }

  lemma OvertakenSteps0(j: nat)
    requires 0 <= j < 6
    ensures Follows(OvertakenState(j), OvertakenAction(j), OvertakenState(Next(31, 10, j)))
  {
    if j == 0 {} else if j == 1 {} else if j == 2 {} else if j == 3 {} else if j == 4 {} else {}
  }

  lemma OvertakenSteps6(j: nat)
    requires 6 <= j < 12
    ensures Follows(OvertakenState(j), OvertakenAction(j), OvertakenState(Next(31, 10, j)))
  {
    if j == 6 {} else if j == 7 {} else if j == 8 {} else if j == 9 {} else if j == 10 {} else {}
  }

  lemma OvertakenSteps12(j: nat)
    requires 12 <= j < 18
    ensures Follows(OvertakenState(j), OvertakenAction(j), OvertakenState(Next(31, 10, j)))
  {
    assert [] + [0] == [0];
    if j == 12 {} else if j == 13 {} else if j == 14 {} else if j == 15 {} else if j == 16 {} else {}
  }

  lemma OvertakenSteps18(j: nat)
    requires 18 <= j < 24
    ensures Follows(OvertakenState(j), OvertakenAction(j), OvertakenState(Next(31, 10, j)))
  {
    if j == 18 {} else if j == 19 {} else if j == 20 {} else if j == 21 {} else if j == 22 {} else {}
  }

  lemma OvertakenSteps24(j: nat)
    requires 24 <= j < 30
    ensures Follows(OvertakenState(j), OvertakenAction(j), OvertakenState(Next(31, 10, j)))
  {
    if j == 24 {} else if j == 25 {} else if j == 26 {} else if j == 27 {} else if j == 28 {} else {}
  }

  lemma OvertakenSteps30(j: nat)
    requires 30 <= j < 31
    ensures Follows(OvertakenState(j), OvertakenAction(j), OvertakenState(Next(31, 10, j)))
  {
    
  }

  lemma OvertakenLasso()
    ensures Lasso(OvertakenState, OvertakenAction, 31, 10)
  {
    assert OvertakenState(0) == Init(2);
    forall j: nat | j < 31 ensures Follows(OvertakenState(j), OvertakenAction(j), OvertakenState(Next(31, 10, j))) {
      if j < 6 { OvertakenSteps0(j); } else if j < 12 { OvertakenSteps6(j); } else if j < 18 { OvertakenSteps12(j); } else if j < 24 { OvertakenSteps18(j); } else if j < 30 { OvertakenSteps24(j); } else { OvertakenSteps30(j); }
    }
  }

  lemma OvertakenWaits(j: nat)
    requires 10 <= j < 31
    ensures QueuedWriter(OvertakenState(j).at[0])
  {
    if j < 15 {} else if j < 20 {} else if j < 25 {} else {}
  }

  function OvertakenSchedule(): nat -> Action {
    (k: nat) => OvertakenAction(Index(31, 10, k))
  }

  // A queued writer may be overtaken for ever: every thread is scheduled again and again, a new writer arrives at
  // each turn, and from time 10 on thread 0 is queued.
  lemma WriterOvertakenForEver()
    ensures EveryTurn(2, OvertakenSchedule()) && Fair(2, OvertakenSchedule())
    ensures forall k: nat | 10 <= k :: QueuedWriter(At(2, OvertakenSchedule(), k).at[0])
  {
    hide OvertakenState, QueuedWriter, Lasso, Index, At;
    var sched := OvertakenSchedule();
    OvertakenLasso();
    assert Periodic(sched, OvertakenAction, 31, 10);
    LoopTurns(OvertakenAction, sched, 31, 10, 10, 14);
    forall k: nat | 10 <= k ensures QueuedWriter(At(2, sched, k).at[0]) {
      LassoRuns(OvertakenState, OvertakenAction, sched, 31, 10, k);
      InLoop(31, 10, k);
      OvertakenWaits(Index(31, 10, k));
    }
  }

  // ---- Kept from the guard by readers ----

  // Thread 1 acquires and releases as reader over and over; thread 0, a writer, is woken at each release of the
  // guard and finds the guard taken again.
  function KeptOutState(j: nat): State {
    match j
    case 0 => Snap(Outside, Outside, None, 1, [], [], Sema(0, []), 0, 0, 0)
    case 1 => Snap(Outside, Downing(Acquire(Reader)), None, 1, [], [], Sema(0, []), 0, 0, 0)
    case 2 => Snap(Outside, Owning(Acquire(Reader)), None, 0, [], [], Sema(0, []), 0, 0, 0)
    case 3 => Snap(Downing(Acquire(Writer)), Owning(Acquire(Reader)), None, 0, [], [], Sema(0, []), 0, 0, 0)
    case 4 => Snap(GuardBlocked(Acquire(Writer)), Owning(Acquire(Reader)), None, 0, [0], [], Sema(0, []), 0, 0, 0)
    case 5 => Snap(GuardBlocked(Acquire(Writer)), Inside(Acquire(Reader)), Some(1), 0, [0], [], Sema(0, []), 0, 0, 0)
    case 6 => Snap(GuardBlocked(Acquire(Writer)), Unholding(BeHolding(Reader)), Some(1), 0, [0], [], Sema(0, []), 1, 0, 0)
    case 7 => Snap(GuardBlocked(Acquire(Writer)), Upping(BeHolding(Reader)), None, 0, [0], [], Sema(0, []), 1, 0, 0)
    case 8 => Snap(Downing(Acquire(Writer)), Holding(Reader), None, 1, [], [], Sema(0, []), 1, 0, 0)
    case 9 => Snap(Downing(Acquire(Writer)), Downing(Release(Reader)), None, 1, [], [], Sema(0, []), 1, 0, 0)
    case 10 => Snap(Downing(Acquire(Writer)), Owning(Release(Reader)), None, 0, [], [], Sema(0, []), 1, 0, 0)
    case 11 => Snap(GuardBlocked(Acquire(Writer)), Owning(Release(Reader)), None, 0, [0], [], Sema(0, []), 1, 0, 0)
    case 12 => Snap(GuardBlocked(Acquire(Writer)), Inside(Release(Reader)), Some(1), 0, [0], [], Sema(0, []), 1, 0, 0)
    case 13 => Snap(GuardBlocked(Acquire(Writer)), Unholding(BeOutside), Some(1), 0, [0], [], Sema(0, []), 0, 0, 0)
    case 14 => Snap(GuardBlocked(Acquire(Writer)), Upping(BeOutside), None, 0, [0], [], Sema(0, []), 0, 0, 0)
    case 15 => Snap(Downing(Acquire(Writer)), Outside, None, 1, [], [], Sema(0, []), 0, 0, 0)
    case _ => Snap(Downing(Acquire(Writer)), Downing(Acquire(Reader)), None, 1, [], [], Sema(0, []), 0, 0, 0)
  }

  function KeptOutAction(j: nat): Action {
    if j <= 0 then Start(1, Reader)
    else if j <= 1 then Go(1)
    else if j <= 2 then Start(0, Writer)
    else if j <= 3 then Go(0)
    else if j <= 9 then Go(1)
    else if j <= 10 then Go(0)
    else if j <= 14 then Go(1)
    else if j <= 15 then Start(1, Reader)
    else Go(1)
  }

  lemma KeptOutSteps0(j: nat)
    requires 0 <= j < 6
    ensures Follows(KeptOutState(j), KeptOutAction(j), KeptOutState(Next(17, 3, j)))
  {
    if j == 0 {} else if j == 1 {} else if j == 2 {} else if j == 3 {} else if j == 4 {} else {}
  }

  lemma KeptOutSteps6(j: nat)
    requires 6 <= j < 12
    ensures Follows(KeptOutState(j), KeptOutAction(j), KeptOutState(Next(17, 3, j)))
  {
    if j == 6 {} else if j == 7 {} else if j == 8 {} else if j == 9 {} else if j == 10 {} else {}
  }

  lemma KeptOutSteps12(j: nat)
    requires 12 <= j < 17
    ensures Follows(KeptOutState(j), KeptOutAction(j), KeptOutState(Next(17, 3, j)))
  {
    if j == 12 {} else if j == 13 {} else if j == 14 {} else if j == 15 {} else {}
  }

  lemma KeptOutLasso()
    ensures Lasso(KeptOutState, KeptOutAction, 17, 3)
  {
    assert KeptOutState(0) == Init(2);
    forall j: nat | j < 17 ensures Follows(KeptOutState(j), KeptOutAction(j), KeptOutState(Next(17, 3, j))) {
      if j < 6 { KeptOutSteps0(j); } else if j < 12 { KeptOutSteps6(j); } else { KeptOutSteps12(j); }
    }
  }

  lemma KeptOutWants(j: nat)
    requires 3 <= j < 17
    ensures Wants(KeptOutState(j).at[0], Writer) && !QueuedWriter(KeptOutState(j).at[0])
    ensures !(KeptOutAction(j).Start? && KeptOutAction(j).role == Writer)
  {}

  function KeptOutSchedule(): nat -> Action {
    (k: nat) => KeptOutAction(Index(17, 3, k))
  }

  // A writer that is not queued yet may be kept out for ever by arriving readers alone: from time 3 on no new
  // writer arrives, every thread is scheduled again and again, and thread 0 wants the lock.
  lemma WriterKeptOutForEver()
    ensures EveryTurn(2, KeptOutSchedule()) && Fair(2, KeptOutSchedule()) && NoNewWriter(KeptOutSchedule(), 3)
    ensures forall k: nat | 3 <= k :: Wants(At(2, KeptOutSchedule(), k).at[0], Writer)
  {
    hide KeptOutState, Wants, QueuedWriter, Lasso, Index, At;
    var sched := KeptOutSchedule();
    KeptOutLasso();
    assert Periodic(sched, KeptOutAction, 17, 3);
    LoopTurns(KeptOutAction, sched, 17, 3, 3, 4);
    forall k: nat | 3 <= k
      ensures Wants(At(2, sched, k).at[0], Writer) && !(sched(k).Start? && sched(k).role == Writer)
    {
      LassoRuns(KeptOutState, KeptOutAction, sched, 17, 3, k);
      InLoop(17, 3, k);
      KeptOutWants(Index(17, 3, k));
    }
  }
}
