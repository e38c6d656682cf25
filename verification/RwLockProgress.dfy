// Progress of the readers-writers lock under fair schedules.
module RwLockProgress {
  import opened RwLock
  import opened RwLockProof

  // ---- Infinite runs ----

  // The state before step k of a schedule.
  ghost function At(n: nat, sched: nat -> Action, k: nat): (s: State)
    ensures Inv(s) && |s.at| == n
  {
    if k == 0 then InitInv(n); Init(n)
    else StepInv(At(n, sched, k - 1), sched(k - 1)); Step(At(n, sched, k - 1), sched(k - 1))
  }

  // Thread t is scheduled at or after time m.
  ghost predicate Again(sched: nat -> Action, t: Tid, m: nat) {
    exists k: nat :: m <= k && sched(k).t == t
  }

  // A thread that is neither outside nor blocked; one that holds the lock goes on to release it.
  predicate Runnable(p: Place) { !p.Outside? && !IsBlocked(p) }

  // A thread that can run is scheduled again: what a scheduler owes to the threads that are ready.
  ghost predicate Fair(n: nat, sched: nat -> Action) {
    forall t: nat, m: nat | t < n && Runnable(At(n, sched, m).at[t]) :: Again(sched, t, m)
  }

  // The step does something.
  predicate Effective(s: State, a: Action) {
    a.t < |s.at| && (Runnable(s.at[a.t]) || (s.at[a.t].Outside? && a.Start?))
  }

  lemma NotEffective(s: State, a: Action)
    requires |s.at| == |s.waiter| && !Effective(s, a)
    ensures Step(s, a) == s
  {}

  // ---- A measure ----

  predicate IsSignaller(p: Place) { p.Signalling? || p.Broadcasting? }

  // Outside, or past the section of its release.
  predicate IsIdle(p: Place) {
    p.Outside? || IsSignaller(p) || p == Unholding(BeOutside) || p == Upping(BeOutside)
  }

  predicate IsBusy(p: Place) { !IsIdle(p) }

  predicate IsActive(p: Place) { ClassOf(p).Active? }

  predicate GoesIn(g: Goal) { !g.Release? }

  // On the way to a section that tries to enter.
  predicate Wanting(p: Place) {
    match p
    case Downing(g) => GoesIn(g)
    case GuardBlocked(g) => GoesIn(g)
    case Owning(g) => GoesIn(g)
    case Inside(g) => GoesIn(g)
    case _ => false
  }

  // ... or signalled, and so on the way to such a section.
  predicate Seeking(s: State, t: Tid)
    requires t < |s.at|
  {
    Wanting(s.at[t]) || ((Pending(s.at[t], Reader) || Pending(s.at[t], Writer)) && t !in s.read && t !in s.write)
  }

  ghost function Seekers(s: State, k: nat): nat
    requires k <= |s.at|
  {
    if k == 0 then 0 else Seekers(s, k - 1) + if Seeking(s, k - 1) then 1 else 0
  }

  // How far a thread is from its next section.
  function Rank(p: Place): nat {
    match p
    case Outside => 0
    case Inside(_) => 3
    case Owning(_) => 4
    case GuardBlocked(_) => 5
    case Downing(_) => 6
    case WaitBlocked(_) => 7
    case Waiting(_) => 8
    case Holding(_) => 8
    case Upping(_) => 11
    case Unholding(_) => 12
    case Signalling => 14
    case Broadcasting => 14
  }

  ghost function Ranks(at: seq<Place>): nat {
    if at == [] then 0 else Ranks(at[..|at| - 1]) + Rank(at[|at| - 1])
  }

  ghost function Signallers(s: State): nat { Count(s.at, IsSignaller) }

  // Readers that a broadcast in progress has still to signal.
  ghost function ToSignal(s: State): nat { if Signallers(s) > 0 then |s.read| else 0 }

  ghost function AllSeekers(s: State): nat { Seekers(s, |s.at|) }

  // Fewer signals to give; or as many, and fewer threads on the way in; or as many, and these nearer.
  ghost predicate Nearer(s: State, r: State) {
    || Signallers(r) < Signallers(s)
    || (Signallers(r) == Signallers(s)
        && (|| ToSignal(r) < ToSignal(s)
            || (ToSignal(r) == ToSignal(s)
                && (AllSeekers(r) < AllSeekers(s) || (AllSeekers(r) == AllSeekers(s) && Ranks(r.at) < Ranks(s.at))))))
  }

  // ---- The measure under a step ----

  lemma {:induction false} RanksMove(at: seq<Place>, t: nat, x: Place)
    requires t < |at|
    ensures Ranks(at[t := x]) == Ranks(at) - Rank(at[t]) + Rank(x)
  {
    var n := |at| - 1;
    assert at[t := x][..n] == if t == n then at[..n] else at[..n][t := x];
    if t < n { RanksMove(at[..n], t, x); }
  }

  // Waking costs one.
  lemma RanksWake(at: seq<Place>, m: Sema)
    ensures Ranks(at) <= Ranks(Wake(at, m)) <= Ranks(at) + 1
  {
    hide Ranks;
    if m.waiters != [] && m.waiters[0] < |at| {
      RanksMove(at, m.waiters[0], Unblocked(at[m.waiters[0]]));
    }
  }

  lemma {:induction false} SeekersMove(s: State, r: State, t: Tid, k: nat)
    requires |s.at| == |r.at| && t < |s.at| && k <= |s.at|
    requires forall u: nat | u < |s.at| && u != t :: Seeking(s, u) == Seeking(r, u)
    ensures Seekers(r, k) == Seekers(s, k) - (if t < k && Seeking(s, t) then 1 else 0) + (if t < k && Seeking(r, t) then 1 else 0)
  {
    hide Seeking;
    if k > 0 { SeekersMove(s, r, t, k - 1); }
  }

  // For what does not depend on being blocked, only the stepping thread counts.
  lemma StepCount(s: State, a: Action, p: Place -> bool)
    requires Inv(s) && a.t < |s.at| && forall x :: p(Unblocked(x)) == p(x)
    ensures Shift(Count(s.at, p), Count(Step(s, a).at, p), p(s.at[a.t]), p(Step(s, a).at[a.t]))
  {
    hide GuardInv, QueueInv, CounterInv, CondInv, WakeInv, Step, Count;
    StepShape(s, a);
    var m := Upped(s, a.t);
    CountWake(s.at, m, p);
    CountMove(Wake(s.at, m), p, a.t, Step(s, a).at[a.t]);
  }

  // The others seek as before while the queues lose nobody and gain at most the stepping thread.
  lemma OthersSeek(s: State, a: Action, u: Tid)
    requires Inv(s) && a.t < |s.at| && u < |s.at| && u != a.t
    requires var r := Step(s, a); (u in r.read <==> u in s.read) && (u in r.write <==> u in s.write)
    ensures Seeking(s, u) == Seeking(Step(s, a), u)
  {
    hide GuardInv, QueueInv, CounterInv, CondInv, WakeInv, Step;
    OthersStay(s, a, u);
  }

  predicate QuietPlace(p: Place) {
    p.Holding? || p.Downing? || p.Owning? || p.Unholding? || p.Upping? || p.Waiting?
  }

  // Outside the sections a step only takes its thread nearer to one.
  lemma QuietNearer(s: State, a: Action)
    requires Inv(s) && a.t < |s.at| && QuietPlace(s.at[a.t])
    ensures Nearer(s, Step(s, a))
  {
    hide GuardInv, QueueInv, CounterInv, CondInv, WakeInv, Step, Count, Seekers, Ranks, Seeking;
    var r := Step(s, a);
    StepCount(s, a, IsSignaller);
    QuietOwn(s, a);
    QueuesStay(s, a);
    forall u: nat | u < |s.at| && u != a.t ensures Seeking(s, u) == Seeking(r, u) { OthersSeek(s, a, u); }
    SeekersMove(s, r, a.t, |s.at|);
    QuietRanks(s, a);
  }

  lemma QuietOwn(s: State, a: Action)
    requires Inv(s) && a.t < |s.at| && QuietPlace(s.at[a.t])
    ensures !IsSignaller(s.at[a.t]) && !IsSignaller(Step(s, a).at[a.t])
    ensures Seeking(s, a.t) == Seeking(Step(s, a), a.t)
  {
    hide GuardInv, QueueInv, CounterInv, WakeInv, Count, CondInv, Wake;
    OneWaiter(s, a.t);
    QueuesStay(s, a);
    var p := s.at[a.t];
    if p.Waiting? {
      assert p.role == Reader || p.role == Writer;
      assert s.waiter[a.t].value > 0 ==> a.t !in s.read && a.t !in s.write;
      assert s.waiter[a.t].value == 0 ==> Step(s, a).at[a.t] == WaitBlocked(p.role);
      assert s.waiter[a.t].value > 0 ==> Step(s, a).at[a.t] == Downing(Rewait(p.role));
    } else if p.Unholding? || p.Upping? {
      assert Step(s, a).at[a.t] == if p.Unholding? then Upping(p.andThen) else After(p.andThen);
    }
  }

  lemma QuietRanks(s: State, a: Action)
    requires Inv(s) && a.t < |s.at| && QuietPlace(s.at[a.t])
    ensures Ranks(Step(s, a).at) < Ranks(s.at)
  {
    hide GuardInv, QueueInv, CounterInv, WakeInv, CondInv, Count, Ranks, Step;
    StepShape(s, a);
    var m := Upped(s, a.t);
    RanksWake(s.at, m);
    RanksMove(Wake(s.at, m), a.t, Step(s, a).at[a.t]);
    QuietRank(s, a);
    assert m.waiters == [] ==> Wake(s.at, m) == s.at;
  }

  lemma QuietRank(s: State, a: Action)
    requires |s.at| == |s.waiter| && a.t < |s.at| && QuietPlace(s.at[a.t])
    ensures Rank(Step(s, a).at[a.t]) + (if s.at[a.t].Upping? then 1 else 0) < Rank(s.at[a.t])
  {
    hide Wake;
  }

  // A section that tries to enter leaves one thread fewer on the way in.
  lemma EnterNearer(s: State, a: Action)
    requires Inv(s) && a.t < |s.at| && s.at[a.t].Inside? && GoesIn(s.at[a.t].goal)
    ensures Nearer(s, Step(s, a))
  {
    hide GuardInv, QueueInv, CounterInv, CondInv, WakeInv, Step, Count, Seekers, Ranks, TryEnter;
    var r := Step(s, a);
    SectionIsAlone(s, a.t);
    NobodyCounts(s.at, IsSignaller);
    StepCount(s, a, IsSignaller);
    SectionQueues(s, a);
    EnterPlace(s, a);
    forall u: nat | u < |s.at| && u != a.t ensures Seeking(s, u) == Seeking(r, u) { OthersSeek(s, a, u); }
    SeekersMove(s, r, a.t, |s.at|);
  }

  lemma EnterPlace(s: State, a: Action)
    requires |s.at| == |s.waiter| && a.t < |s.at| && s.at[a.t].Inside? && GoesIn(s.at[a.t].goal)
    ensures var x, r := Step(s, a).at[a.t], s.at[a.t].goal.role;
            x == Unholding(BeWaiting(r)) || x == Unholding(BeHolding(r))
  {}

  lemma {:induction false} NobodyCounts(at: seq<Place>, p: Place -> bool)
    requires forall t | 0 <= t < |at| :: !p(at[t])
    ensures Count(at, p) == 0
  {
    if at != [] { NobodyCounts(at[..|at| - 1], p); }
  }

  // A signal ends the signalling, or leaves the broadcast one reader fewer.
  lemma SignalNearer(s: State, a: Action)
    requires Inv(s) && a.t < |s.at| && IsSignaller(s.at[a.t])
    ensures Nearer(s, Step(s, a))
  {
    hide GuardInv, QueueInv, CounterInv, CondInv, WakeInv, Step, Count, Seekers, Ranks, Seeking, Pending;
    StepCount(s, a, IsSignaller);
    CountMember(s.at, IsSignaller, a.t);
    SignalQueues(s, a);
    SignalPlace(s, a);
  }

  lemma SignalPlace(s: State, a: Action)
    requires |s.at| == |s.waiter| && CondInv(s) && a.t < |s.at| && IsSignaller(s.at[a.t])
    ensures var r := Step(s, a);
            if s.at[a.t].Broadcasting? && s.read != [] then r.at[a.t].Broadcasting? else !IsSignaller(r.at[a.t])
  {
    SignalShape(s, a);
    FirstWaiter(s, if s.at[a.t].Signalling? then Writer else Reader);
    hide CondInv, Pending;
  }

  // Every step of a runnable thread, other than a release section, brings the lock nearer.
  lemma StepNearer(s: State, a: Action)
    requires Inv(s) && a.t < |s.at| && Runnable(s.at[a.t])
    requires !(s.at[a.t].Inside? && s.at[a.t].goal.Release?)
    ensures Nearer(s, Step(s, a))
  {
    hide Inv, Step, Nearer;
    var p := s.at[a.t];
    if IsSignaller(p) {
      SignalNearer(s, a);
    } else if p.Inside? {
      EnterNearer(s, a);
    } else {
      QuietNearer(s, a);
    }
  }

  // ---- Somebody can always run ----

  lemma SomebodyRuns(s: State, t: Tid) returns (u: Tid)
    requires Inv(s) && t < |s.at| && !s.at[t].Outside?
    ensures u < |s.at| && Runnable(s.at[u])
  {
    hide GuardInv, QueueInv, CounterInv, CondInv, WakeInv;
    if v: nat :| v < |s.at| && Runnable(s.at[v]) {
      u := v;
    } else {
      NobodyInGuard(s);
      GuardQueueEmpty(s);
      BlockedOnQueue(s, t);
      u := SomebodyHolds(s);
    }
  }

  // While thread t can run, some step before its next turn, or that turn, does something.
  lemma {:induction false} FirstEffective(n: nat, sched: nat -> Action, m: nat, t: Tid, k: nat) returns (j: nat)
    requires t < n && m <= k && sched(k).t == t && Runnable(At(n, sched, m).at[t])
    ensures m <= j && At(n, sched, j) == At(n, sched, m) && Effective(At(n, sched, j), sched(j))
    decreases k - m
  {
    hide Step, Inv;
    if Effective(At(n, sched, m), sched(m)) {
      j := m;
    } else {
      NotEffective(At(n, sched, m), sched(m));
      assert At(n, sched, m + 1) == At(n, sched, m);
      j := FirstEffective(n, sched, m + 1, t, k);
    }
  }

  // If somebody is not outside, something happens next.
  lemma SomethingHappens(n: nat, sched: nat -> Action, m: nat, t: Tid) returns (j: nat)
    requires Fair(n, sched) && t < n && !At(n, sched, m).at[t].Outside?
    ensures m <= j && At(n, sched, j) == At(n, sched, m) && Effective(At(n, sched, j), sched(j))
  {
    hide At, Inv, Runnable, Effective;
    var u := SomebodyRuns(At(n, sched, m), t);
    assert Again(sched, u, m);
    var k: nat :| m <= k && sched(k).t == u;
    j := FirstEffective(n, sched, m, u, k);
  }

  // ---- A waiting writer ----

  ghost function Potential(s: State): nat { 2 * Count(s.at, IsActive) + Count(s.at, IsIdle) }

  // While a writer waits and none is active, nobody becomes active: arrivals and releases use up the potential,
  // and every other step brings the lock nearer.
  lemma WaitingWriterStep(s: State, a: Action)
    requires Inv(s) && Effective(s, a) && s.WW > 0 && s.AW == 0
    ensures var r := Step(s, a);
            r.AW > 0 || (r.WW > 0 && (Potential(r) < Potential(s) || (Potential(r) == Potential(s) && Nearer(s, r))))
  {
    hide GuardInv, QueueInv, CounterInv, CondInv, WakeInv, Step, Count, Nearer, ClassOf;
    var r, p := Step(s, a), s.at[a.t];
    ActiveBlockedOrNot();
    StepCount(s, a, IsActive);
    StepCount(s, a, IsIdle);
    if p.Inside? {
      ReleaserCounted(s, a.t);
      SectionPotential(s, a);
      if GoesIn(p.goal) { StepNearer(s, a); }
    } else {
      NoSection(s, a);
      StepPotential(s, a);
      if Runnable(p) { StepNearer(s, a); }
    }
  }

  lemma ActiveBlockedOrNot()
    ensures forall p :: IsActive(Unblocked(p)) == IsActive(p)
  {}

  lemma ReleaserCounted(s: State, t: Tid)
    requires Inv(s) && t < |s.at|
    ensures s.at[t] == Inside(Release(Writer)) ==> s.AW > 0
  {
    hide GuardInv, QueueInv, CondInv, WakeInv, Count;
    ActiveCounted(s, t);
  }

  lemma SectionPotential(s: State, a: Action)
    requires |s.at| == |s.waiter| && a.t < |s.at| && s.at[a.t].Inside? && s.WW > 0 && s.AW == 0
    requires s.at[a.t].goal == Release(Writer) ==> s.AW > 0
    ensures var r, p, x := Step(s, a), s.at[a.t], Step(s, a).at[a.t];
            r.AW > 0 ||
            (&& r.WW > 0
             && (if GoesIn(p.goal) then !IsActive(p) && !IsActive(x) && !IsIdle(p) && !IsIdle(x)
                 else IsActive(p) && !IsActive(x) && !IsIdle(p) && IsIdle(x)))
  {}

  lemma StepPotential(s: State, a: Action)
    requires Inv(s) && Effective(s, a) && !s.at[a.t].Inside?
    ensures var p, x := s.at[a.t], Step(s, a).at[a.t];
            && IsActive(p) == IsActive(x)
            && (if p.Outside? then IsIdle(p) && !IsIdle(x) else IsIdle(p) == IsIdle(x))
  {
    hide GuardInv, QueueInv, CounterInv, CondInv, WakeInv, Count, Wake;
    if IsSignaller(s.at[a.t]) {
      SignalPlace(s, a);
      SignalIdle(s, a);
    }
  }

  lemma SignalIdle(s: State, a: Action)
    requires |s.at| == |s.waiter| && CondInv(s) && a.t < |s.at| && IsSignaller(s.at[a.t])
    ensures IsIdle(Step(s, a).at[a.t]) && !IsActive(Step(s, a).at[a.t])
  {
    SignalShape(s, a);
    FirstWaiter(s, if s.at[a.t].Signalling? then Writer else Reader);
    hide CondInv, Pending;
  }

  // Under every fair schedule, whatever new readers and writers arrive, when a writer waits some writer
  // becomes active.
  lemma {:induction false} WriterGetsIn(n: nat, sched: nat -> Action, m: nat) returns (k: nat)
    requires Fair(n, sched) && At(n, sched, m).WW > 0
    ensures m <= k && At(n, sched, k).AW > 0
    decreases Potential(At(n, sched, m)), Signallers(At(n, sched, m)), ToSignal(At(n, sched, m)),
              AllSeekers(At(n, sched, m)), Ranks(At(n, sched, m).at)
  {
    hide Inv, Step, Effective, Count, Fair, Potential, Signallers, ToSignal, AllSeekers, Ranks;
    var s := At(n, sched, m);
    if s.AW > 0 {
      k := m;
    } else {
      WriterCounts(s);
      var w := CountWitness(s.at, QueuedWriter);
      var j := SomethingHappens(n, sched, m, w);
      WaitingWriterStep(s, sched(j));
      assert At(n, sched, j + 1) == Step(s, sched(j));
      if At(n, sched, j + 1).AW > 0 {
        k := j + 1;
      } else {
        k := WriterGetsIn(n, sched, j + 1);
      }
    }
  }

  lemma WriterCounts(s: State)
    requires Inv(s)
    ensures s.WW == Count(s.at, QueuedWriter) && s.AW >= 0
  {
    hide Count;
  }

  // ---- A particular waiting writer ----

  // From time m on no thread starts to acquire the lock as writer; readers may.
  ghost predicate NoNewWriter(sched: nat -> Action, m: nat) {
    forall k: nat | m <= k :: !(sched(k).Start? && sched(k).role == Writer)
  }

  // The thread wants the lock in this role and does not have it yet.
  predicate Wants(p: Place, role: Role) {
    match p
    case Downing(g) => GoesIn(g) && g.role == role
    case GuardBlocked(g) => GoesIn(g) && g.role == role
    case Owning(g) => GoesIn(g) && g.role == role
    case Inside(g) => GoesIn(g) && g.role == role
    case _ => Pending(p, role)
  }

  // The thread wants the lock as writer or has it.
  predicate WriterSide(p: Place) { Wants(p, Writer) || ActiveWriter(p) }

  lemma WriterSideBlockedOrNot()
    ensures forall p :: WriterSide(Unblocked(p)) == WriterSide(p)
  {}

  // Nobody comes to want the lock as writer unless it starts to, and a release ends it.
  lemma WriterSideStep(s: State, a: Action)
    requires Inv(s) && a.t < |s.at| && !(a.Start? && a.role == Writer)
    ensures var p, x := s.at[a.t], Step(s, a).at[a.t];
            && (WriterSide(x) ==> WriterSide(p))
            && (p == Inside(Release(Writer)) ==> WriterSide(p) && !WriterSide(x))
  {
    hide GuardInv, QueueInv, CounterInv, CondInv, WakeInv, Count, Wake, TryEnter, Signal;
    var p := s.at[a.t];
    if IsSignaller(p) {
      SignalIdle(s, a);
    } else if p.Inside? && GoesIn(p.goal) {
      EnterPlace(s, a);
    }
  }

  // While a writer is active nobody else becomes active, and the writer comes nearer to its release.
  lemma ActiveWriterStep(s: State, a: Action)
    requires Inv(s) && Effective(s, a) && s.AW > 0 && !(a.Start? && a.role == Writer)
    ensures var r := Step(s, a);
            && Count(r.at, WriterSide) <= Count(s.at, WriterSide)
            && (|| Count(r.at, WriterSide) < Count(s.at, WriterSide)
                || (r.AW > 0 && (|| Count(r.at, IsIdle) < Count(s.at, IsIdle)
                                 || (Count(r.at, IsIdle) == Count(s.at, IsIdle) && Nearer(s, r)))))
  {
    hide GuardInv, QueueInv, CondInv, WakeInv, Step, Count, Nearer, ClassOf, WriterSide, CounterInv;
    var p := s.at[a.t];
    WriterSideBlockedOrNot();
    StepCount(s, a, WriterSide);
    WriterSideStep(s, a);
    StepCount(s, a, IsIdle);
    if p.Inside? {
      SectionUnderWriter(s, a);
      if GoesIn(p.goal) { StepNearer(s, a); }
    } else {
      NoSection(s, a);
      StepPotential(s, a);
      if Runnable(p) { StepNearer(s, a); }
    }
  }

  lemma SectionUnderWriter(s: State, a: Action)
    requires Inv(s) && a.t < |s.at| && s.at[a.t].Inside? && s.AW > 0
    ensures var p, x := s.at[a.t], Step(s, a).at[a.t];
            if GoesIn(p.goal) then Step(s, a).AW == s.AW && !IsIdle(p) && !IsIdle(x) else p.goal == Release(Writer)
  {
    hide GuardInv, QueueInv, CondInv, WakeInv, Count;
    ActiveCounted(s, a.t);
    SectionPlaceUnderWriter(s, a);
  }

  lemma SectionPlaceUnderWriter(s: State, a: Action)
    requires |s.at| == |s.waiter| && a.t < |s.at| && s.at[a.t].Inside? && s.AW > 0 && s.AR == 0 && s.WW >= 0
    ensures var p, x := s.at[a.t], Step(s, a).at[a.t];
            GoesIn(p.goal) ==> Step(s, a).AW == s.AW && !IsIdle(p) && !IsIdle(x)
  {}

  // An active writer releases: from then on one thread fewer wants or has the lock as writer.
  lemma {:induction false} WriterReleases(n: nat, sched: nat -> Action, m: nat) returns (k: nat)
    requires Fair(n, sched) && NoNewWriter(sched, m) && At(n, sched, m).AW > 0
    ensures m <= k && Count(At(n, sched, k).at, WriterSide) < Count(At(n, sched, m).at, WriterSide)
    decreases Count(At(n, sched, m).at, IsIdle), Signallers(At(n, sched, m)), ToSignal(At(n, sched, m)),
              AllSeekers(At(n, sched, m)), Ranks(At(n, sched, m).at)
  {
    hide Inv, Step, Effective, Count, Fair, Signallers, ToSignal, AllSeekers, Ranks;
    var s := At(n, sched, m);
    var u := ActiveWriterIs(s);
    var j := SomethingHappens(n, sched, m, u);
    ActiveWriterStep(s, sched(j));
    assert At(n, sched, j + 1) == Step(s, sched(j));
    k := j + 1;
    if Count(At(n, sched, j + 1).at, WriterSide) == Count(s.at, WriterSide) {
      k := WriterReleases(n, sched, j + 1);
    }
  }

  lemma ActiveWriterIs(s: State) returns (u: Tid)
    requires Inv(s) && s.AW > 0
    ensures u < |s.at| && ActiveWriter(s.at[u]) && !s.at[u].Outside?
  {
    hide Count;
    u := CountWitness(s.at, ActiveWriter);
  }

  // Without new writers the number never rises.
  lemma {:induction false} WriterSideFalls(n: nat, sched: nat -> Action, m: nat, k: nat)
    requires NoNewWriter(sched, m) && m <= k
    ensures Count(At(n, sched, k).at, WriterSide) <= Count(At(n, sched, m).at, WriterSide)
    decreases k - m
  {
    hide Inv, Step, Count, WriterSide;
    if m < k {
      var s, a := At(n, sched, k - 1), sched(k - 1);
      WriterSideFalls(n, sched, m, k - 1);
      assert At(n, sched, k) == Step(s, a);
      if a.t < n {
        WriterSideBlockedOrNot();
        StepCount(s, a, WriterSide);
        WriterSideStep(s, a);
      } else {
        OutOfRange(s, a);
      }
    }
  }

  lemma OutOfRange(s: State, a: Action)
    requires Inv(s) && a.t >= |s.at|
    ensures Step(s, a) == s
  {
    hide GuardInv, QueueInv, CounterInv, CondInv, WakeInv;
    StepOutOfRange(s, a);
  }

  // A queued writer is queued until it is active.
  lemma QueuedUntilActive(s: State, a: Action, w: Tid)
    requires Inv(s) && w < |s.at| && QueuedWriter(s.at[w])
    ensures QueuedWriter(Step(s, a).at[w]) || ActiveWriter(Step(s, a).at[w])
  {
    hide GuardInv, QueueInv, CounterInv, CondInv, WakeInv, Count, Step;
    if a.t >= |s.at| {
      StepOutOfRange(s, a);
    } else if a.t != w {
      OthersStay(s, a, w);
    } else if s.at[w].Inside? {
      EnterPlace(s, a);
    } else {
      NoSection(s, a);
    }
  }

  lemma {:induction false} QueuedOrActive(n: nat, sched: nat -> Action, m: nat, k: nat, w: Tid) returns (j: nat)
    requires w < n && m <= k && QueuedWriter(At(n, sched, m).at[w])
    ensures m <= j <= k && (ActiveWriter(At(n, sched, j).at[w]) || (j == k && QueuedWriter(At(n, sched, k).at[w])))
    decreases k - m
  {
    hide Inv, Step, QueuedWriter, ActiveWriter;
    j := m;
    if m < k && !ActiveWriter(At(n, sched, m).at[w]) {
      QueuedUntilActive(At(n, sched, m), sched(m), w);
      assert At(n, sched, m + 1) == Step(At(n, sched, m), sched(m));
      j := m + 1;
      if !ActiveWriter(At(n, sched, j).at[w]) {
        j := QueuedOrActive(n, sched, m + 1, k, w);
      }
    }
  }

  // Under every fair schedule a queued writer becomes active itself, however many readers keep arriving, if
  // no new writers do.
  lemma {:induction false} QueuedWriterGetsIn(n: nat, sched: nat -> Action, m: nat, w: Tid) returns (k: nat)
    requires Fair(n, sched) && NoNewWriter(sched, m) && w < n && QueuedWriter(At(n, sched, m).at[w])
    ensures m <= k && ActiveWriter(At(n, sched, k).at[w])
    decreases Count(At(n, sched, m).at, WriterSide)
  {
    hide Inv, At, Count, Fair, WriterSide, QueuedWriter, ActiveWriter;
    var s := At(n, sched, m);
    QueuedCounts(s, w);
    var i := WriterGetsIn(n, sched, m);
    k := QueuedOrActive(n, sched, m, i, w);
    if !ActiveWriter(At(n, sched, k).at[w]) {
      var j := WriterReleases(n, sched, i);
      WriterSideFalls(n, sched, m, i);
      k := QueuedOrActive(n, sched, i, j, w);
      if !ActiveWriter(At(n, sched, k).at[w]) {
        k := QueuedWriterGetsIn(n, sched, j, w);
      }
    }
  }

  lemma QueuedCounts(s: State, w: Tid)
    requires Inv(s) && w < |s.at| && QueuedWriter(s.at[w])
    ensures s.WW > 0
  {
    hide Count, GuardInv, QueueInv, CondInv, WakeInv;
    ActiveCounted(s, w);
  }

  // ---- No new arrivals ----

  // From time m on nobody starts an acquisition.
  ghost predicate NobodyNew(sched: nat -> Action, m: nat) {
    forall k: nat | m <= k :: sched(k).Go?
  }

  // Without arrivals the number of threads that have not released falls at a release and never rises.
  lemma DrainStep(s: State, a: Action)
    requires Inv(s) && Effective(s, a) && a.Go?
    ensures var r, b := Count(s.at, IsBusy), Count(Step(s, a).at, IsBusy);
            b < r || (b == r && Nearer(s, Step(s, a)))
  {
    hide GuardInv, QueueInv, CounterInv, CondInv, WakeInv, Step, Count, Nearer, ClassOf;
    var p := s.at[a.t];
    StepCount(s, a, IsBusy);
    if p.Inside? {
      SectionBusy(s, a);
    } else {
      StepPotential(s, a);
    }
    if !(p.Inside? && p.goal.Release?) { StepNearer(s, a); }
  }

  lemma SectionBusy(s: State, a: Action)
    requires |s.at| == |s.waiter| && a.t < |s.at| && s.at[a.t].Inside?
    ensures IsBusy(s.at[a.t]) && (IsBusy(Step(s, a).at[a.t]) <==> GoesIn(s.at[a.t].goal))
  {}

  // Under every fair schedule without new arrivals, everybody ends up outside.
  lemma {:induction false} Drains(n: nat, sched: nat -> Action, m: nat) returns (k: nat)
    requires Fair(n, sched) && NobodyNew(sched, m)
    ensures m <= k && forall t | 0 <= t < n :: At(n, sched, k).at[t].Outside?
    decreases Count(At(n, sched, m).at, IsBusy), Signallers(At(n, sched, m)), ToSignal(At(n, sched, m)),
              AllSeekers(At(n, sched, m)), Ranks(At(n, sched, m).at)
  {
    hide Inv, Step, Effective, Count, Fair, Signallers, ToSignal, AllSeekers, Ranks;
    var s := At(n, sched, m);
    if t: nat :| t < n && !s.at[t].Outside? {
      var j := SomethingHappens(n, sched, m, t);
      DrainStep(s, sched(j));
      assert At(n, sched, j + 1) == Step(s, sched(j));
      k := Drains(n, sched, j + 1);
    } else {
      k := m;
    }
  }

  // It wants it until it has it.
  lemma WantsUntilActive(s: State, a: Action, t: Tid, role: Role)
    requires Inv(s) && t < |s.at| && Wants(s.at[t], role)
    ensures Wants(Step(s, a).at[t], role) || ClassOf(Step(s, a).at[t]) == Active(role)
  {
    hide GuardInv, QueueInv, CounterInv, CondInv, WakeInv, Count;
    if a.t >= |s.at| {
      StepOutOfRange(s, a);
    } else if a.t != t {
      OthersStay(s, a, t);
      hide Step;
    } else {
      OwnWants(s, a, role);
    }
  }

  lemma OwnWants(s: State, a: Action, role: Role)
    requires |s.at| == |s.waiter| && a.t < |s.at| && Wants(s.at[a.t], role)
    ensures Wants(Step(s, a).at[a.t], role) || ClassOf(Step(s, a).at[a.t]) == Active(role)
  {
    hide Wake, TryEnter, Signal;
    if s.at[a.t].Inside? { EnterPlace(s, a); }
  }

  // A thread that wants the lock at one time and is outside at a later one was active in between.
  lemma {:induction false} ActiveBetween(n: nat, sched: nat -> Action, m: nat, k: nat, t: Tid, role: Role) returns (j: nat)
    requires t < n && m <= k && Wants(At(n, sched, m).at[t], role) && At(n, sched, k).at[t].Outside?
    ensures m <= j <= k && ClassOf(At(n, sched, j).at[t]) == Active(role)
    decreases k - m
  {
    hide Inv, Step, ClassOf;
    WantsUntilActive(At(n, sched, m), sched(m), t, role);
    assert At(n, sched, m + 1) == Step(At(n, sched, m), sched(m));
    if ClassOf(At(n, sched, m + 1).at[t]) == Active(role) {
      j := m + 1;
    } else {
      j := ActiveBetween(n, sched, m + 1, k, t, role);
    }
  }

  // Under every fair schedule, once nobody new arrives every thread that wants the lock gets it, in its role.
  lemma EverybodyGetsIn(n: nat, sched: nat -> Action, m: nat, t: Tid, role: Role) returns (j: nat)
    requires Fair(n, sched) && NobodyNew(sched, m) && t < n && Wants(At(n, sched, m).at[t], role)
    ensures m <= j && ClassOf(At(n, sched, j).at[t]) == Active(role)
  {
    hide At, Inv;
    var k := Drains(n, sched, m);
    j := ActiveBetween(n, sched, m, k, t, role);
  }
}
