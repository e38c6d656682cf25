// The scheduler's invariant is kept by every step, and what it promises in every run.
module SchedulerProof {
  import opened Common
  import opened Scheduler

  lemma InitInv()
    ensures Inv(Init())
  {}

  // ---- Small facts ----

  lemma {:induction false} WokenMove(threads: seq<Thread>, i: SemaId, t: nat, x: Thread)
    requires t < |threads|
    ensures Woken(threads[t := x], i) == Woken(threads, i) - (if IsWoken(threads[t], i) then 1 else 0) + (if IsWoken(x, i) then 1 else 0)
  {
    var n := |threads| - 1;
    assert threads[t := x][..n] == if t == n then threads[..n] else threads[..n][t := x];
    if t < n {
      WokenMove(threads[..n], i, t, x);
    }
  }

  lemma WokenAppend(threads: seq<Thread>, i: SemaId, x: Thread)
    ensures Woken(threads + [x], i) == Woken(threads, i) + if IsWoken(x, i) then 1 else 0
  {
    assert (threads + [x])[..|threads|] == threads;
  }

  lemma {:induction false} WithoutFacts(q: seq<Tid>, t: Tid)
    requires Distinct(q)
    ensures Distinct(Without(q, t))
    ensures forall u :: u in Without(q, t) <==> u in q && u != t
  {
    if q != [] {
      assert q == [q[0]] + q[1..];
      if q[0] != t {
        WithoutFacts(q[1..], t);
        var w := Without(q[1..], t);
        assert forall k | 0 <= k < |w| :: w[k] in q[1..];
      }
    }
  }

  lemma AppendDistinct(q: seq<Tid>, t: Tid)
    requires Distinct(q) && t !in q
    ensures Distinct(q + [t])
  {}

  lemma TailFacts(q: seq<Tid>)
    requires Distinct(q) && q != []
    ensures Distinct(q[1..])
    ensures forall u :: u in q[1..] <==> u in q && u != q[0]
  {
    assert q == [q[0]] + q[1..];
  }

  lemma InBelow(q: seq<Tid>, n: nat, t: Tid)
    requires AllBelow(q, n) && t in q
    ensures t < n
  {}

  // ---- schedule() ----

  // Switching to the next thread turns the mid-switch invariant back into the full one.
  lemma ScheduleInv(s: State)
    requires InvMid(s, true) && CanSwitch(s)
    ensures Inv(Schedule(s))
  {
    var s', prev, next := Schedule(s), s.current, NextToRun(s).value;
    assert ThreadOk(s, next, true) && ThreadOk(s, prev, true);
    if s.ready != [] {
      TailFacts(s.ready);
    }
    forall t | 0 <= t < |s'.threads| ensures ThreadOk(s', t, false) {
      assert ThreadOk(s, t, true);
    }
    forall i | 0 <= i < |s'.semas| ensures SemaOk(s', i) {
      assert SemaOk(s, i);
      WokenMove(s.threads, i, next, s.threads[next].(status := Running));
    }
  }

  // ---- Steps that switch threads ----

  lemma YieldInv(s: State)
    requires InvMid(s, false)
    ensures Inv(Yield(s))
  {
    var t := s.current;
    assert ThreadOk(s, t, false);
    var s1 := if s.idle == Some(t) then s else s.(ready := s.ready + [t]);
    var s2 := SetStatus(s1, t, Ready);
    AppendDistinct(s.ready, t);
    forall u | 0 <= u < |s2.threads| ensures ThreadOk(s2, u, true) {
      assert ThreadOk(s, u, false);
    }
    forall i | 0 <= i < |s2.semas| ensures SemaOk(s2, i) {
      assert SemaOk(s, i);
      WokenMove(s.threads, i, t, s.threads[t].(status := Ready));
    }
    ScheduleInv(s2);
  }

  lemma ExitInv(s: State)
    requires Inv(s) && CanSwitch(s) && s.threads[s.current].waitingOn.None? && s.idle != Some(s.current)
    ensures Inv(Exit(s))
  {
    var t := s.current;
    assert ThreadOk(s, t, false);
    var s2 := SetStatus(s.(all := Without(s.all, t)), t, Dying);
    WithoutFacts(s.all, t);
    forall k | 0 <= k < |s2.all| ensures s2.all[k] < |s.threads| {
      assert s2.all[k] in s2.all;
      InBelow(s.all, |s.threads|, s2.all[k]);
    }
    forall u | 0 <= u < |s2.threads| ensures ThreadOk(s2, u, true) {
      assert ThreadOk(s, u, false);
    }
    forall i | 0 <= i < |s2.semas| ensures SemaOk(s2, i) {
      assert SemaOk(s, i);
      WokenMove(s.threads, i, t, s.threads[t].(status := Dying));
    }
    ScheduleInv(s2);
  }

  lemma IdleBlockInv(s: State)
    requires Inv(s) && s.idle == Some(s.current)
    ensures CanSwitch(s) && Inv(Block(s))
  {
    var t := s.current;
    assert ThreadOk(s, t, false);
    var s2 := SetStatus(s, t, Blocked);
    forall u | 0 <= u < |s2.threads| ensures ThreadOk(s2, u, true) {
      assert ThreadOk(s, u, false);
    }
    forall i | 0 <= i < |s2.semas| ensures SemaOk(s2, i) {
      assert SemaOk(s, i);
      WokenMove(s.threads, i, t, s.threads[t].(status := Blocked));
    }
    ScheduleInv(s2);
  }

  // sema_down() with value 0: the thread joins the waiters and blocks. A woken thread that finds 0
  // again stops counting as woken, which the bound allows because the value is 0.
  lemma DownBlockInv(s: State, i: SemaId)
    requires Inv(s) && CanSwitch(s) && i < |s.semas| && s.semas[i].value == 0 && s.idle != Some(s.current)
    requires s.threads[s.current].waitingOn.None? || s.threads[s.current].waitingOn == Some(i)
    ensures Inv(DownTurn(s, i))
  {
    var t, m := s.current, s.semas[i];
    assert ThreadOk(s, t, false) && SemaOk(s, i);
    var s2 := SetStatus(s.(semas := s.semas[i := m.(waiters := m.waiters + [t])],
                           threads := s.threads[t := s.threads[t].(waitingOn := Some(i))]), t, Blocked);
    assert s2.threads == s.threads[t := Thread(Blocked, Some(i))];
    AppendDistinct(m.waiters, t);
    forall u | 0 <= u < |s2.threads| ensures ThreadOk(s2, u, true) {
      assert ThreadOk(s, u, false);
    }
    forall j | 0 <= j < |s2.semas| ensures SemaOk(s2, j) {
      assert SemaOk(s, j);
      WokenMove(s.threads, j, t, Thread(Blocked, Some(i)));
    }
    ScheduleInv(s2);
  }

  // ---- Steps that do not ----

  lemma DownTakeInv(s: State, i: SemaId)
    requires Inv(s) && i < |s.semas| && s.semas[i].value > 0
    requires s.threads[s.current].waitingOn.None? || s.threads[s.current].waitingOn == Some(i)
    ensures Inv(DownTurn(s, i))
  {
    var s2, t := DownTurn(s, i), s.current;
    assert ThreadOk(s, t, false);
    forall u | 0 <= u < |s2.threads| ensures ThreadOk(s2, u, false) {
      assert ThreadOk(s, u, false);
    }
    forall j | 0 <= j < |s2.semas| ensures SemaOk(s2, j) {
      assert SemaOk(s, j);
      WokenMove(s.threads, j, t, s.threads[t].(waitingOn := None));
    }
  }

  lemma TryDownInv(s: State, i: SemaId)
    requires Inv(s) && i < |s.semas|
    ensures Inv(TryDown(s, i))
  {
    var s2 := TryDown(s, i);
    forall u | 0 <= u < |s2.threads| ensures ThreadOk(s2, u, false) {
      assert ThreadOk(s, u, false);
    }
    forall j | 0 <= j < |s2.semas| ensures SemaOk(s2, j) {
      assert SemaOk(s, j);
    }
  }

  // sema_up() raises the value and wakes one thread, so the bound moves on both sides.
  lemma UpInv(s: State, i: SemaId)
    requires Inv(s) && i < |s.semas|
    ensures SemaOk(s, i) && Inv(Up(s, i))
  {
    assert SemaOk(s, i);
    var m := s.semas[i];
    var s2 := Up(s, i);
    if m.waiters != [] {
      var w := m.waiters[0];
      assert w in m.waiters && ThreadOk(s, w, false);
      TailFacts(m.waiters);
      AppendDistinct(s.ready, w);
      assert s2.threads == s.threads[w := Thread(Ready, Some(i))];
    }
    forall u | 0 <= u < |s2.threads| ensures ThreadOk(s2, u, false) {
      assert ThreadOk(s, u, false);
    }
    forall j | 0 <= j < |s2.semas| ensures SemaOk(s2, j) {
      assert SemaOk(s, j);
      if m.waiters != [] {
        WokenMove(s.threads, j, m.waiters[0], Thread(Ready, Some(i)));
      }
    }
  }

  lemma CreateInv(s: State)
    requires Inv(s)
    ensures Inv(Create(s))
  {
    var s2, n := Create(s), |s.threads|;
    assert s2.threads == s.threads + [Thread(Ready, None)];
    forall u | 0 <= u < |s2.threads| ensures ThreadOk(s2, u, false) {
      if u < n {
        assert ThreadOk(s, u, false);
      } else {
        NewThreadUnknown(s);
      }
    }
    forall i | 0 <= i < |s2.semas| ensures SemaOk(s2, i) {
      assert SemaOk(s, i);
      WokenAppend(s.threads, i, Thread(Ready, None));
    }
  }

  lemma NewThreadUnknown(s: State)
    requires Inv(s)
    ensures var n := |s.threads|;
            OnNoQueue(s, n) && n !in s.all && n !in s.freed && s.idle != Some(n) && s.current != n
  {
    forall i | 0 <= i < |s.semas| ensures |s.threads| !in s.semas[i].waiters {
      assert SemaOk(s, i);
    }
  }

  lemma NewSemaInv(s: State, v: nat)
    requires Inv(s)
    ensures Inv(s.(semas := s.semas + [Sema(v, [])]))
  {
    var s2 := s.(semas := s.semas + [Sema(v, [])]);
    forall u | 0 <= u < |s2.threads| ensures ThreadOk(s2, u, false) {
      assert ThreadOk(s, u, false);
    }
    forall i | 0 <= i < |s2.semas| ensures SemaOk(s2, i) {
      assert i < |s.semas| ==> SemaOk(s, i);
    }
  }

  lemma BecomeIdleInv(s: State)
    requires Inv(s) && s.idle.None? && s.threads[s.current].waitingOn.None?
    ensures Inv(s.(idle := Some(s.current)))
  {
    var s2 := s.(idle := Some(s.current));
    forall u | 0 <= u < |s2.threads| ensures ThreadOk(s2, u, false) {
      assert ThreadOk(s, u, false);
    }
    forall i | 0 <= i < |s2.semas| ensures SemaOk(s2, i) {
      assert SemaOk(s, i);
    }
  }

  lemma TickInv(s: State)
    requires Inv(s)
    ensures InvMid(s.(ticks := s.ticks + 1), false)
  {
    var s2 := s.(ticks := s.ticks + 1);
    forall u | 0 <= u < |s2.threads| ensures ThreadOk(s2, u, false) {
      assert ThreadOk(s, u, false);
    }
    forall i | 0 <= i < |s2.semas| ensures SemaOk(s2, i) {
      assert SemaOk(s, i);
    }
  }

  lemma StepInv(s: State, a: Action)
    requires Inv(s) && Enabled(s, a)
    ensures Inv(Step(s, a))
  {
    assert ThreadOk(s, s.current, false);
    match a
    case NewSema(v) => NewSemaInv(s, v);
    case Down(i) => if s.semas[i].value == 0 { DownBlockInv(s, i); } else { DownTakeInv(s, i); }
    case TestAgain =>
      var i := s.threads[s.current].waitingOn.value;
      if s.semas[i].value == 0 { DownBlockInv(s, i); } else { DownTakeInv(s, i); }
    case TryTake(i) => TryDownInv(s, i);
    case Raise(i) => UpInv(s, i);
    case Spawn => CreateInv(s);
    case GiveUp => YieldInv(s);
    case Leave => ExitInv(s);
    case BecomeIdle => BecomeIdleInv(s);
    case IdleBlock => IdleBlockInv(s);
    case Tick => TickInv(s); if s.ticks + 1 >= TIME_SLICE { YieldInv(s.(ticks := s.ticks + 1)); }
  }

  // ---- Runs ----

  ghost predicate AllEnabled(s: State, actions: seq<Action>)
    requires Inv(s)
    decreases |actions|
  {
    actions == [] || (Enabled(s, actions[0]) && (StepInv(s, actions[0]); AllEnabled(Step(s, actions[0]), actions[1..])))
  }

  ghost function After(s: State, actions: seq<Action>): (r: State)
    requires Inv(s) && AllEnabled(s, actions)
    ensures Inv(r)
    decreases |actions|
  {
    if actions == [] then s else
    StepInv(s, actions[0]);
    After(Step(s, actions[0]), actions[1..])
  }

  // One processor, and every thread on the one list its status calls for: in every run no thread is on
  // two lists, a blocked thread can still be woken, and a dying one is on no list and freed once.
  lemma OneListEach(actions: seq<Action>, t: Tid)
    requires Inv(Init()) && AllEnabled(Init(), actions) && t < |After(Init(), actions).threads|
    ensures var s := After(Init(), actions);
            && (s.threads[t].status == Running <==> t == s.current)
            && (t in s.ready ==> s.threads[t].status == Ready && forall i | 0 <= i < |s.semas| :: t !in s.semas[i].waiters)
            && (s.threads[t].status == Ready && s.idle != Some(t) ==> t in s.ready)
            && (forall i | 0 <= i < |s.semas| && t in s.semas[i].waiters :: s.threads[t].status == Blocked)
            && (forall i, j | 0 <= i < |s.semas| && 0 <= j < |s.semas| && t in s.semas[i].waiters && t in s.semas[j].waiters :: i == j)
            && (s.threads[t].status == Blocked && s.idle != Some(t) ==> exists i | 0 <= i < |s.semas| :: t in s.semas[i].waiters)
            && (s.threads[t].status == Dying ==> OnNoQueue(s, t) && t !in s.all)
            && (t in s.freed <==> s.threads[t].status == Dying && t != 0)
            && Distinct(s.ready) && Distinct(s.all) && Distinct(s.freed)
  {
    hide After;
    var s := After(Init(), actions);
    assert ThreadOk(s, t, false);
  }

  // A waiting thread is not forgotten while units are there.
  lemma WaitersNotForgotten(actions: seq<Action>, i: SemaId)
    requires Inv(Init()) && AllEnabled(Init(), actions) && i < |After(Init(), actions).semas|
    ensures var s := After(Init(), actions);
            var m := s.semas[i];
            && (m.waiters != [] ==> Woken(s.threads, i) >= m.value)
            && Distinct(m.waiters)
  {
    hide After;
    assert SemaOk(After(Init(), actions), i);
  }

  // ---- Bounded waiting ----

  // Does the step call schedule()?
  predicate Switches(s: State, a: Action)
    requires s.current < |s.threads|
    requires Enabled(s, a)
  {
    match a
    case Down(i) => s.semas[i].value == 0
    case TestAgain => s.semas[s.threads[s.current].waitingOn.value].value == 0
    case GiveUp => true
    case Leave => true
    case IdleBlock => true
    case Tick => s.ticks + 1 >= TIME_SLICE
    case _ => false
  }

  // A ready thread moves up one place at each schedule(), and at no other time.
  lemma StepAdvances(s: State, a: Action, k: nat)
    requires Inv(s) && Enabled(s, a) && k < |s.ready|
    ensures var s' := Step(s, a);
            if !Switches(s, a) then k < |s'.ready| && s'.ready[k] == s.ready[k]
            else if k == 0 then s'.current == s.ready[0]
            else k - 1 < |s'.ready| && s'.ready[k - 1] == s.ready[k]
  {
    hide ThreadOk, SemaOk;
    match a
    case Down(i) =>
    case TestAgain => ThreadWaits(s);
    case Raise(i) => UpInv(s, i);
    case _ =>
  }

  lemma ThreadWaits(s: State)
    requires Inv(s) && s.threads[s.current].waitingOn.Some?
    ensures s.threads[s.current].waitingOn.value < |s.semas|
  {
    assert ThreadOk(s, s.current, false);
  }

  ghost function Schedules(s: State, actions: seq<Action>): nat
    requires Inv(s) && AllEnabled(s, actions)
    decreases |actions|
  {
    if actions == [] then 0 else
    StepInv(s, actions[0]);
    (if Switches(s, actions[0]) then 1 else 0) + Schedules(Step(s, actions[0]), actions[1..])
  }

  // A thread with k others ahead of it runs by the (k+1)-th schedule() at the latest.
  lemma {:induction false} BoundedWaiting(s: State, actions: seq<Action>, k: nat)
    requires Inv(s) && AllEnabled(s, actions) && k < |s.ready| && Schedules(s, actions) > k
    ensures exists j | 0 <= j <= |actions| :: AllEnabled(s, actions[..j]) && After(s, actions[..j]).current == s.ready[k]
    decreases |actions|
  {
    hide ThreadOk, SemaOk, Step, Enabled, Switches;
    var a, s1, rest := actions[0], Step(s, actions[0]), actions[1..];
    StepInv(s, a);
    StepAdvances(s, a, k);
    if Switches(s, a) && k == 0 {
      OneStepRun(s, a);
      assert actions[..1] == [a];
    } else {
      BoundedWaiting(s1, rest, if Switches(s, a) then k - 1 else k);
      var j :| 0 <= j <= |rest| && AllEnabled(s1, rest[..j]) && After(s1, rest[..j]).current == s.ready[k];
      assert actions[..j + 1][1..] == rest[..j];
    }
  }

  lemma OneStepRun(s: State, a: Action)
    requires Inv(s) && Enabled(s, a)
    ensures AllEnabled(s, [a]) && After(s, [a]) == Step(s, a)
  {
    hide Inv, Step, Enabled;
    StepInv(s, a);
    assert [a][1..] == [];
  }

  function Ticks(actions: seq<Action>): nat {
    if actions == [] then 0 else (if actions[0].Tick? then 1 else 0) + Ticks(actions[1..])
  }

  lemma StepTicks(s: State, a: Action)
    requires Inv(s) && Enabled(s, a)
    ensures s.ticks + (if a.Tick? then 1 else 0) <= Step(s, a).ticks + (if Switches(s, a) then TIME_SLICE else 0)
  {
    hide ThreadOk, SemaOk;
    match a
    case TestAgain => ThreadWaits(s);
    case Raise(i) => UpInv(s, i);
    case _ =>
  }

  // No time slice is longer than TIME_SLICE ticks.
  lemma {:induction false} TicksForceSchedules(s: State, actions: seq<Action>)
    requires Inv(s) && AllEnabled(s, actions)
    ensures s.ticks + Ticks(actions) <= TIME_SLICE * Schedules(s, actions) + After(s, actions).ticks
    decreases |actions|
  {
    hide Inv, Step, Enabled, Switches;
    if actions != [] {
      StepInv(s, actions[0]);
      StepTicks(s, actions[0]);
      TicksForceSchedules(Step(s, actions[0]), actions[1..]);
    }
  }

  // So it runs within TIME_SLICE * (k + 1) timer ticks.
  lemma RunsWithinTicks(s: State, actions: seq<Action>, k: nat)
    requires Inv(s) && AllEnabled(s, actions) && k < |s.ready| && Ticks(actions) >= TIME_SLICE * (k + 1)
    ensures exists j | 0 <= j <= |actions| :: AllEnabled(s, actions[..j]) && After(s, actions[..j]).current == s.ready[k]
  {
    TicksForceSchedules(s, actions);
    BoundedWaiting(s, actions, k);
  }

  // ---- Infinite runs ----

  // The actions from time m up to time k.
  function Segment(actions: nat -> Action, m: nat, k: nat): (r: seq<Action>)
    requires m <= k
    ensures |r| == k - m && forall i | 0 <= i < k - m :: r[i] == actions(m + i)
  {
    seq(k - m, i requires 0 <= i => actions(m + i))
  }

  // Every action of the infinite run is enabled when its time comes.
  ghost predicate Runs(actions: nat -> Action) {
    Inv(Init()) && forall k: nat :: AllEnabled(Init(), Segment(actions, 0, k))
  }

  ghost function StateAt(actions: nat -> Action, k: nat): (s: State)
    requires Runs(actions)
    ensures Inv(s)
  {
    After(Init(), Segment(actions, 0, k))
  }

  // The timer ticks at or after time m.
  ghost predicate TicksAfter(actions: nat -> Action, m: nat) {
    exists k: nat :: m <= k && actions(k) == Action.Tick
  }

  ghost predicate TimerRuns(actions: nat -> Action) {
    forall m: nat :: TicksAfter(actions, m)
  }

  lemma {:induction false} RunInTwo(s: State, a: seq<Action>, b: seq<Action>)
    requires Inv(s) && AllEnabled(s, a + b)
    ensures AllEnabled(s, a) && AllEnabled(After(s, a), b) && After(s, a + b) == After(After(s, a), b)
    decreases |a|
  {
    hide Step, Enabled, Inv;
    if a == [] {
      assert a + b == b;
    } else {
      assert (a + b)[0] == a[0] && (a + b)[1..] == a[1..] + b;
      StepInv(s, a[0]);
      RunInTwo(Step(s, a[0]), a[1..], b);
    }
  }

  lemma {:induction false} TicksInTwo(a: seq<Action>, b: seq<Action>)
    ensures Ticks(a + b) == Ticks(a) + Ticks(b)
  {
    if a == [] {
      assert a + b == b;
    } else {
      assert (a + b)[1..] == a[1..] + b;
      TicksInTwo(a[1..], b);
    }
  }

  // A running timer ticks any number of times.
  lemma {:induction false} EnoughTicks(actions: nat -> Action, m: nat, count: nat) returns (k: nat)
    requires TimerRuns(actions)
    ensures m <= k && Ticks(Segment(actions, m, k)) >= count
  {
    k := m;
    if count > 0 {
      var i := EnoughTicks(actions, m, count - 1);
      assert TicksAfter(actions, i);
      var j: nat :| i <= j && actions(j) == Action.Tick;
      k := j + 1;
      var a, b, c := Segment(actions, m, i), Segment(actions, i, j), [Action.Tick];
      assert Segment(actions, m, k) == a + (b + c);
      TicksInTwo(a, b + c);
      TicksInTwo(b, c);
      assert c[1..] == [] && Ticks(c) == 1;
    }
  }

  // While the timer runs, a thread that is ready runs again: what progress of the locks asks of a scheduler.
  lemma ReadyRunsAgain(actions: nat -> Action, m: nat, t: Tid) returns (k: nat)
    requires Runs(actions) && TimerRuns(actions) && t in StateAt(actions, m).ready
    ensures m <= k && StateAt(actions, k).current == t
  {
    hide Inv, AllEnabled, After, Ticks, TimerRuns;
    var s := StateAt(actions, m);
    var i: nat :| i < |s.ready| && s.ready[i] == t;
    var e := EnoughTicks(actions, m, TIME_SLICE * (i + 1));
    var seg := Segment(actions, m, e);
    assert Segment(actions, 0, e) == Segment(actions, 0, m) + seg;
    RunInTwo(Init(), Segment(actions, 0, m), seg);
    RunsWithinTicks(s, seg, i);
    var j :| 0 <= j <= |seg| && AllEnabled(s, seg[..j]) && After(s, seg[..j]).current == s.ready[i];
    k := m + j;
    assert Segment(actions, 0, k) == Segment(actions, 0, m) + seg[..j];
    RunInTwo(Init(), Segment(actions, 0, m), seg[..j]);
  }
}
