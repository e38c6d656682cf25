// Laws of the scheduler and the semaphores that count only the actions of a run.
module SchedulerLaws {
  import opened Common
  import opened Scheduler
  import opened SchedulerProof

  // ---- Semaphores count ----

  // The step completes a sema_down() of semaphore i: one that finds a unit, or a sema_try_down() that does.
  predicate Takes(s: State, a: Action, i: SemaId)
    requires s.current < |s.threads| && Enabled(s, a)
  {
    match a
    case Down(j) => j == i && s.semas[j].value > 0
    case TestAgain => s.threads[s.current].waitingOn == Some(i) && i < |s.semas| && s.semas[i].value > 0
    case TryTake(j) => j == i && s.semas[j].value > 0
    case _ => false
  }

  // How often the run completes a sema_down() of semaphore i.
  ghost function Taken(s: State, run: seq<Action>, i: SemaId): nat
    requires Inv(s) && AllEnabled(s, run)
    decreases |run|
  {
    if run == [] then 0
    else
      StepInv(s, run[0]);
      (if Takes(s, run[0], i) then 1 else 0) + Taken(Step(s, run[0]), run[1..], i)
  }

  // How often the run calls sema_up() on semaphore i.
  function Raises(run: seq<Action>, i: SemaId): nat {
    if run == [] then 0 else (if run[0] == Raise(i) then 1 else 0) + Raises(run[1..], i)
  }

  function Made(run: seq<Action>): nat {
    if run == [] then 0 else (if run[0].NewSema? then 1 else 0) + Made(run[1..])
  }

  // The value that the run gives to the (i+1)-th semaphore it makes.
  function MadeWith(run: seq<Action>, i: nat): nat
    requires i < Made(run)
  {
    if !run[0].NewSema? then MadeWith(run[1..], i)
    else if i == 0 then run[0].initial
    else MadeWith(run[1..], i - 1)
  }

  lemma StepUnits(s: State, a: Action, i: SemaId)
    requires Inv(s) && Enabled(s, a)
    ensures var r := Step(s, a);
            && |r.semas| == |s.semas| + (if a.NewSema? then 1 else 0)
            && (i < |s.semas| ==>
                  r.semas[i].value == s.semas[i].value + (if a == Raise(i) then 1 else 0) - (if Takes(s, a, i) then 1 else 0))
            && (i == |s.semas| && a.NewSema? ==> r.semas[i].value == a.initial)
            && (i >= |s.semas| ==> a != Raise(i) && !Takes(s, a, i))
  {
    hide ThreadOk, SemaOk;
    match a
    case TestAgain => ThreadWaits(s);
    case Raise(j) => UpInv(s, j);
    case _ =>
  }

  // Over every run, a semaphore's value is what it was (or was made with), plus the ups, less the completed downs.
  lemma {:induction false} UnitsOverRun(s: State, run: seq<Action>, i: SemaId)
    requires Inv(s) && AllEnabled(s, run)
    ensures var r := After(s, run);
            && |r.semas| == |s.semas| + Made(run)
            && (i < |r.semas| ==>
                  r.semas[i].value + Taken(s, run, i)
                  == (if i < |s.semas| then s.semas[i].value else MadeWith(run, i - |s.semas|)) + Raises(run, i))
    decreases |run|
  {
    hide Inv, Step, Enabled, Takes;
    if run != [] {
      StepInv(s, run[0]);
      StepUnits(s, run[0], i);
      UnitsOverRun(Step(s, run[0]), run[1..], i);
    }
  }

  // From the start: value plus completed downs is the initial value plus ups.
  lemma SemaphoreCounts(run: seq<Action>, i: SemaId)
    requires Inv(Init()) && AllEnabled(Init(), run)
    ensures |After(Init(), run).semas| == Made(run)
    ensures i < Made(run) ==>
              After(Init(), run).semas[i].value + Taken(Init(), run, i) == MadeWith(run, i) + Raises(run, i)
  {
    hide Inv, AllEnabled, After, Taken;
    UnitsOverRun(Init(), run, i);
  }

  // ---- What sema_down() does to its thread ----

  // At zero the thread goes to the back of the waiters and stops running; otherwise it runs on, with its unit.
  lemma DownEffect(s: State, a: Action, i: SemaId)
    requires Inv(s) && Enabled(s, a) && i < |s.semas|
    requires a == Down(i) || (a.TestAgain? && s.threads[s.current].waitingOn == Some(i))
    ensures var t, r := s.current, Step(s, a);
            if Takes(s, a, i)
            then r.current == t && r.threads[t] == Thread(Running, None) && r.semas[i].waiters == s.semas[i].waiters
            else r.current != t && r.threads[t] == Thread(Blocked, Some(i)) && r.semas[i].waiters == s.semas[i].waiters + [t]
  {
    hide SemaOk;
    StepInv(s, a);
    assert ThreadOk(s, s.current, false);
    assert ThreadOk(Step(s, a), s.current, false);
    hide ThreadOk;
  }

  // ---- Waiters are woken in order of arrival ----

  // A waiter moves up one place at each sema_up() of its semaphore, and at no other time; from the front it goes to
  // the back of the ready list.
  lemma WaiterAdvances(s: State, a: Action, i: SemaId, k: nat)
    requires Inv(s) && Enabled(s, a) && i < |s.semas| && k < |s.semas[i].waiters|
    ensures var t, r := s.semas[i].waiters[k], Step(s, a);
            && i < |r.semas|
            && if a != Raise(i) then k < |r.semas[i].waiters| && r.semas[i].waiters[k] == t
               else if k == 0 then r.ready == s.ready + [t]
               else k - 1 < |r.semas[i].waiters| && r.semas[i].waiters[k - 1] == t
  {
    hide ThreadOk, SemaOk;
    match a
    case TestAgain => ThreadWaits(s);
    case Raise(j) => UpInv(s, j);
    case _ =>
  }

  // The j-th step of the run is the (k+1)-th sema_up() of semaphore i, and puts thread t on the ready list.
  ghost predicate ReadiedAt(s: State, run: seq<Action>, i: SemaId, k: nat, t: Tid, j: nat)
    requires Inv(s)
  {
    && j < |run| && run[j] == Raise(i) && Raises(run[..j], i) == k && AllEnabled(s, run[..j + 1])
    && var r := After(s, run[..j + 1]);
       r.ready != [] && r.ready[|r.ready| - 1] == t
  }

  // A waiter with k others before it is made ready by the (k+1)-th sema_up().
  lemma {:induction false} WaitersInOrder(s: State, run: seq<Action>, i: SemaId, k: nat)
    requires Inv(s) && AllEnabled(s, run) && i < |s.semas| && k < |s.semas[i].waiters| && Raises(run, i) > k
    ensures exists j :: ReadiedAt(s, run, i, k, s.semas[i].waiters[k], j)
    decreases |run|
  {
    hide Inv, Step, Enabled;
    var t, a, r, rest := s.semas[i].waiters[k], run[0], Step(s, run[0]), run[1..];
    StepInv(s, a);
    WaiterAdvances(s, a, i, k);
    if a == Raise(i) && k == 0 {
      OneStepRun(s, a);
      assert run[..1] == [a] && run[..0] == [];
      assert ReadiedAt(s, run, i, k, t, 0);
    } else {
      var k' := if a == Raise(i) then k - 1 else k;
      WaitersInOrder(r, rest, i, k');
      var j: nat :| ReadiedAt(r, rest, i, k', t, j);
      assert run[..j + 1][1..] == rest[..j] && run[..j + 2][1..] == rest[..j + 1];
      assert run[..j + 1][0] == a && run[..j + 2][0] == a && run[j + 1] == rest[j];
      assert ReadiedAt(s, run, i, k, t, j + 1);
    }
  }

  // ---- Threads that are made and threads that leave ----

  // thread_create() adds one thread, at the back of the ready list.
  lemma SpawnEffect(s: State)
    requires Inv(s) && Enabled(s, Spawn)
    ensures var r := Step(s, Spawn);
            && |r.threads| == |s.threads| + 1 && r.ready == s.ready + [|s.threads|] && r.current == s.current
            && r.threads[..|s.threads|] == s.threads
  {
    hide ThreadOk, SemaOk;
  }

  // A thread that is dying stays so.
  lemma StepKeepsDying(s: State, a: Action, t: Tid)
    requires Inv(s) && Enabled(s, a) && t < |s.threads| && s.threads[t].status == Dying
    ensures t < |Step(s, a).threads| && Step(s, a).threads[t].status == Dying
  {
    hide SemaOk;
    assert ThreadOk(s, t, false);
    match a
    case TestAgain => ThreadWaits(s); KeepsDying(s, a, t);
    case Raise(i) =>
      UpInv(s, i);
      if s.semas[i].waiters != [] { WaiterBlocked(s, i); }
    case _ => KeepsDying(s, a, t);
  }

  lemma WaiterBlocked(s: State, i: SemaId)
    requires Inv(s) && i < |s.semas| && s.semas[i].waiters != []
    ensures s.semas[i].waiters[0] < |s.threads| && s.threads[s.semas[i].waiters[0]].status == Blocked
  {
    assert SemaOk(s, i);
    var w := s.semas[i].waiters[0];
    assert w in s.semas[i].waiters;
    assert ThreadOk(s, w, false);
  }

  lemma KeepsDying(s: State, a: Action, t: Tid)
    requires Inv(s) && Enabled(s, a) && t < |s.threads| && s.threads[t].status == Dying && !a.Raise?
    requires t != s.current && t !in s.ready && s.idle != Some(t)
    requires a.TestAgain? ==> s.threads[s.current].waitingOn.value < |s.semas|
    ensures t < |Step(s, a).threads| && Step(s, a).threads[t].status == Dying
  {
    hide ThreadOk, SemaOk;
  }

  // A thread that calls thread_exit() is dying, never runs again, is on no list, and its page is freed.
  ghost predicate Gone(s: State, t: Tid) {
    && t < |s.threads| && s.threads[t].status == Dying && t != s.current
    && OnNoQueue(s, t) && t !in s.all && (t != 0 ==> t in s.freed)
  }

  lemma DyingGone(s: State, t: Tid)
    requires Inv(s) && t < |s.threads| && s.threads[t].status == Dying
    ensures Gone(s, t)
  {
    hide SemaOk;
    assert ThreadOk(s, t, false);
  }

  lemma {:induction false} GoneForEver(s: State, run: seq<Action>, t: Tid)
    requires Inv(s) && AllEnabled(s, run) && t < |s.threads| && s.threads[t].status == Dying
    ensures Gone(After(s, run), t)
    decreases |run|
  {
    hide Inv, Step, Enabled, Gone;
    if run == [] {
      DyingGone(s, t);
    } else {
      StepInv(s, run[0]);
      StepKeepsDying(s, run[0], t);
      GoneForEver(Step(s, run[0]), run[1..], t);
    }
  }

  lemma ExitIsFinal(s: State, run: seq<Action>)
    requires Inv(s) && Enabled(s, Leave) && (StepInv(s, Leave); AllEnabled(Step(s, Leave), run))
    ensures (StepInv(s, Leave); Gone(After(Step(s, Leave), run), s.current))
  {
    hide Gone, AllEnabled, After;
    StepInv(s, Leave);
    ExitDies(s);
    GoneForEver(Step(s, Leave), run, s.current);
  }

  lemma ExitDies(s: State)
    requires Inv(s) && Enabled(s, Leave)
    ensures s.current < |Step(s, Leave).threads| && Step(s, Leave).threads[s.current].status == Dying
  {
    hide SemaOk;
    assert ThreadOk(s, s.current, false);
    hide ThreadOk;
  }

  // ---- Time slices ----

  // Does the step call schedule(), `n` ticks after the last one?
  predicate Schedules(s: State, a: Action, n: nat)
    requires s.current < |s.threads| && Enabled(s, a)
  {
    if a.Tick? then n + 1 >= 4 else Switches(s, a)
  }

  // The ticks since the last schedule(), counted off the run; `n` of them before it.
  ghost function SinceSchedule(s: State, run: seq<Action>, n: nat): nat
    requires Inv(s) && AllEnabled(s, run)
    decreases |run|
  {
    if run == [] then n
    else
      StepInv(s, run[0]);
      SinceSchedule(Step(s, run[0]), run[1..],
                    if Schedules(s, run[0], n) then 0 else if run[0].Tick? then n + 1 else n)
  }

  lemma StepTick(s: State, a: Action)
    requires Inv(s) && Enabled(s, a)
    ensures Step(s, a).ticks == if Schedules(s, a, s.ticks) then 0 else if a.Tick? then s.ticks + 1 else s.ticks
    ensures Schedules(s, a, s.ticks) <==> Switches(s, a)
  {
    hide ThreadOk, SemaOk;
    match a
    case TestAgain => ThreadWaits(s);
    case Raise(i) => UpInv(s, i);
    case _ =>
  }

  // The fourth tick after a schedule(), and no earlier one, ends the time slice.
  lemma {:induction false} TicksCounted(s: State, run: seq<Action>)
    requires Inv(s) && AllEnabled(s, run)
    ensures After(s, run).ticks == SinceSchedule(s, run, s.ticks)
    decreases |run|
  {
    hide Inv, Step, Enabled, Schedules;
    if run != [] {
      StepInv(s, run[0]);
      StepTick(s, run[0]);
      TicksCounted(Step(s, run[0]), run[1..]);
    }
  }
}
