// What every reachable state of the readers-writers lock satisfies.
module RwLockProof {
  import opened Common
  import opened RwLock

  // The guard is a lock: its value and the thread inside it add up to one, and "holder" is right.
  ghost predicate GuardInv(s: State) {
    && s.guard.sema.value + Count(s.at, InGuard) == 1
    && (s.guard.holder.Some? ==> s.guard.holder.value < |s.at|)
    && forall t | 0 <= t < |s.at| :: s.guard.holder == Some(t) <==> HoldsGuard(s.at[t])
  }

  // Its waiters are exactly the blocked threads, and enough of them have been woken.
  ghost predicate QueueInv(s: State) {
    var m := s.guard.sema;
    && Distinct(m.waiters)
    && (forall t | t in m.waiters :: t < |s.at|)
    && (forall t | 0 <= t < |s.at| :: t in m.waiters <==> s.at[t].GuardBlocked?)
    && (m.waiters != [] ==> Count(s.at, IsDowning) >= m.value)
  }

  // The four counters count threads, and exclude each other.
  ghost predicate CounterInv(s: State) {
    && s.AR == Count(s.at, ActiveReader)
    && s.AW == Count(s.at, ActiveWriter)
    && s.WR == Count(s.at, QueuedReader)
    && s.WW == Count(s.at, QueuedWriter)
    && s.AW <= 1 && (s.AW == 1 ==> s.AR == 0)
  }

  // One thread's part of the condition variables: on a queue until signalled, and its semaphore is 1
  // from the signal until it wakes.
  ghost predicate WaiterOk(p: Place, m: Sema, t: Tid, onRead: bool, onWrite: bool) {
    && (onRead ==> Pending(p, Reader))
    && (onWrite ==> Pending(p, Writer))
    && (Pending(p, Reader) || Pending(p, Writer) ==>
          && m.value == (if onRead || onWrite then 0 else 1)
          && m.waiters == (if p.WaitBlocked? then [t] else [])
          && (p.WaitBlocked? ==> onRead || onWrite))
  }

  ghost predicate CondInv(s: State) {
    && Distinct(s.read) && Distinct(s.write)
    && (forall t | t in s.read :: t < |s.at|)
    && (forall t | t in s.write :: t < |s.at|)
    && |s.at| == |s.waiter| && forall t | 0 <= t < |s.at| :: CondFor(s, t)
  }

  ghost predicate CondFor(s: State, t: Tid)
    requires t < |s.at| == |s.waiter|
  {
    WaiterOk(s.at[t], s.waiter[t], t, t in s.read, t in s.write)
  }

  // A writer that has been signalled and is on its way out of cond_wait().
  predicate Signalled(s: State, t: Tid)
    requires t < |s.at|
  {
    QueuedWriter(s.at[t]) && t !in s.write
  }

  // No wakeup is lost: whoever still waits has someone who will signal it.
  ghost predicate ReadersOk(s: State) {
    s.read != [] ==> s.AW + s.WW > 0 || exists t | 0 <= t < |s.at| :: s.at[t].Broadcasting?
  }

  ghost predicate WritersOk(s: State) {
    s.write != [] ==>
      || s.AR + s.AW > 0
      || (exists t | 0 <= t < |s.at| :: s.at[t].Signalling?)
      || (exists t | 0 <= t < |s.at| :: Signalled(s, t))
  }

  ghost predicate WakeInv(s: State) {
    ReadersOk(s) && WritersOk(s)
  }

  ghost predicate Inv(s: State) {
    && |s.at| == |s.waiter|
    && GuardInv(s) && QueueInv(s) && CounterInv(s) && CondInv(s) && WakeInv(s)
  }

  lemma InitInv(n: nat)
    ensures Inv(Init(n))
  {
    CountNone(n, InGuard);
    CountNone(n, ActiveReader);
    CountNone(n, ActiveWriter);
    CountNone(n, QueuedReader);
    CountNone(n, QueuedWriter);
  }

  // ---- Counts under a step ----

  lemma CountWake(at: seq<Place>, m: Sema, p: Place -> bool)
    requires forall x :: p(Unblocked(x)) == p(x)
    ensures Count(Wake(at, m), p) == Count(at, p)
  {
    if m.waiters != [] && m.waiters[0] < |at| {
      CountMove(at, p, m.waiters[0], Unblocked(at[m.waiters[0]]));
    }
  }

  ghost predicate Shift(before: int, after: int, was: bool, now: bool) {
    after == before - (if was then 1 else 0) + (if now then 1 else 0)
  }

  // Only thread t matters to the counts of at and at'.
  ghost predicate CountsFollow(at: seq<Place>, at': seq<Place>, t: nat) {
    && t < |at| == |at'|
    && Shift(Count(at, InGuard), Count(at', InGuard), InGuard(at[t]), InGuard(at'[t]))
    && Shift(Count(at, ActiveReader), Count(at', ActiveReader), ActiveReader(at[t]), ActiveReader(at'[t]))
    && Shift(Count(at, ActiveWriter), Count(at', ActiveWriter), ActiveWriter(at[t]), ActiveWriter(at'[t]))
    && Shift(Count(at, QueuedReader), Count(at', QueuedReader), QueuedReader(at[t]), QueuedReader(at'[t]))
    && Shift(Count(at, QueuedWriter), Count(at', QueuedWriter), QueuedWriter(at[t]), QueuedWriter(at'[t]))
  }

  // A step that moves thread t to x, and perhaps wakes the first waiter of m.
  lemma CountsAfter(at: seq<Place>, m: Sema, t: nat, x: Place)
    requires t < |at|
    requires m.waiters != [] ==> m.waiters[0] != t
    ensures CountsFollow(at, Wake(at, m)[t := x], t)
  {
    hide Count;
    CountWake(at, m, InGuard);
    CountWake(at, m, ActiveReader);
    CountWake(at, m, ActiveWriter);
    CountWake(at, m, QueuedReader);
    CountWake(at, m, QueuedWriter);
    var w := Wake(at, m);
    CountMove(w, InGuard, t, x);
    CountMove(w, ActiveReader, t, x);
    CountMove(w, ActiveWriter, t, x);
    CountMove(w, QueuedReader, t, x);
    CountMove(w, QueuedWriter, t, x);
  }

  // ---- The shape of a step ----

  // The semaphore thread t ups in its next step, if it ups one.
  ghost function Upped(s: State, t: Tid): Sema
    requires t < |s.at| == |s.waiter|
  {
    match s.at[t]
    case Signalling => if s.write == [] || s.write[0] >= |s.at| then Sema(0, []) else s.waiter[s.write[0]]
    case Broadcasting => if s.read == [] || s.read[0] >= |s.at| then Sema(0, []) else s.waiter[s.read[0]]
    case Upping(_) => s.guard.sema
    case _ => Sema(0, [])
  }

  predicate IsBlocked(p: Place) { p.GuardBlocked? || p.WaitBlocked? }

  ghost predicate ShapeOk(s: State, s': State, m: Sema, t: Tid) {
    && t < |s.at| == |s'.at|
    && s'.at == Wake(s.at, m)[t := s'.at[t]]
    && (m.waiters != [] ==> m.waiters[0] < |s.at| && m.waiters[0] != t && IsBlocked(s.at[m.waiters[0]]))
  }

  // The first waiter of a condition variable, if blocked at all, is blocked on its own semaphore.
  lemma FirstWaiter(s: State, r: Role)
    requires |s.at| == |s.waiter| && CondInv(s)
    ensures var q := if r == Reader then s.read else s.write;
            q != [] ==>
              var u := q[0];
              && u < |s.at| && Pending(s.at[u], r) && s.waiter[u].value == 0
              && (s.waiter[u].waiters == if s.at[u].WaitBlocked? then [u] else [])
  {
    var q := if r == Reader then s.read else s.write;
    if q != [] {
      assert q[0] in q;
      assert CondFor(s, q[0]);
    }
  }

  lemma SignalShape(s: State, a: Action)
    requires |s.at| == |s.waiter| && CondInv(s) && a.t < |s.at| && (s.at[a.t].Signalling? || s.at[a.t].Broadcasting?)
    ensures ShapeOk(s, Step(s, a), Upped(s, a.t), a.t)
  {
    hide CondInv;
    FirstWaiter(s, if s.at[a.t].Signalling? then Writer else Reader);
  }

  // A step moves its own thread and wakes at most one other, which was blocked.
  lemma StepShape(s: State, a: Action)
    requires Inv(s) && a.t < |s.at|
    ensures ShapeOk(s, Step(s, a), Upped(s, a.t), a.t)
  {
    hide Count, GuardInv, CounterInv, CondInv, WakeInv;
    if s.at[a.t].Signalling? || s.at[a.t].Broadcasting? {
      SignalShape(s, a);
    } else if s.guard.sema.waiters != [] {
      assert s.guard.sema.waiters[0] in s.guard.sema.waiters;
    }
  }

  // Threads other than the stepping one stay where they are, or are unblocked there.
  lemma OthersStay(s: State, a: Action, u: Tid)
    requires Inv(s) && a.t < |s.at| && u < |s.at| && u != a.t
    ensures Step(s, a).at[u] == s.at[u] || (IsBlocked(s.at[u]) && Step(s, a).at[u] == Unblocked(s.at[u]))
  {
    hide GuardInv, QueueInv, CounterInv, CondInv, WakeInv, Step;
    StepShape(s, a);
  }

  lemma StepCounts(s: State, a: Action)
    requires Inv(s) && a.t < |s.at|
    ensures CountsFollow(s.at, Step(s, a).at, a.t)
  {
    hide GuardInv, QueueInv, CounterInv, CondInv, WakeInv, Step, Count, CountsFollow;
    StepShape(s, a);
    CountsAfter(s.at, Upped(s, a.t), a.t, Step(s, a).at[a.t]);
  }

  // ---- Each part of the invariant is kept by every step ----

  // At most one thread is in the guard, so none but t is when t is.
  lemma AloneInGuard(s: State, t: Tid, u: Tid)
    requires GuardInv(s) && t < |s.at| && u < |s.at| && InGuard(s.at[t]) && InGuard(s.at[u])
    ensures t == u
  {
    hide Count;
    if t < u {
      CountPair(s.at, InGuard, t, u);
    } else if u < t {
      CountPair(s.at, InGuard, u, t);
    }
  }

  // The threads about to test the guard: t may come or go, and sema_up() adds the one it wakes.
  lemma DowningCount(s: State, a: Action)
    requires Inv(s) && a.t < |s.at|
    ensures var s', m := Step(s, a), s.guard.sema;
            Shift(Count(s.at, IsDowning) + (if s.at[a.t].Upping? && m.waiters != [] then 1 else 0),
                  Count(s'.at, IsDowning), s.at[a.t].Downing?, s'.at[a.t].Downing?)
  {
    hide Count, GuardInv, CounterInv, CondInv, WakeInv, Step;
    StepShape(s, a);
    var m := Upped(s, a.t);
    if m.waiters != [] {
      var u := m.waiters[0];
      CountMove(s.at, IsDowning, u, Unblocked(s.at[u]));
      if s.at[a.t].Upping? {
        assert u in m.waiters;
      } else {
        SignalledIsNotGuardBlocked(s, a.t);
      }
    }
    CountMove(Wake(s.at, m), IsDowning, a.t, Step(s, a).at[a.t]);
  }

  lemma SignalledIsNotGuardBlocked(s: State, t: Tid)
    requires Inv(s) && t < |s.at| && !s.at[t].Upping? && Upped(s, t).waiters != []
    ensures Upped(s, t).waiters[0] < |s.at| && s.at[Upped(s, t).waiters[0]].WaitBlocked?
  {
    hide Count, GuardInv, CounterInv, QueueInv, CondInv, WakeInv;
    FirstWaiter(s, if s.at[t].Signalling? then Writer else Reader);
  }

  lemma DistinctParts(q: seq<Tid>)
    requires Distinct(q)
    ensures q != [] ==> Distinct(q[1..]) && q[0] !in q[1..]
    ensures q != [] ==> forall u :: u in q[1..] <==> u in q && u != q[0]
  {
    if q != [] {
      assert q == [q[0]] + q[1..];
    }
  }

  // Exactly the first waiter of an upped semaphore is woken.
  lemma WokenPlace(s: State, a: Action, u: Tid)
    requires Inv(s) && a.t < |s.at| && u < |s.at| && u != a.t
    ensures var m := Upped(s, a.t);
            Step(s, a).at[u] == if m.waiters != [] && m.waiters[0] == u then Unblocked(s.at[u]) else s.at[u]
  {
    hide GuardInv, QueueInv, CounterInv, CondInv, WakeInv, Step;
    StepShape(s, a);
  }

  // The guard's waiters after a step of t.
  ghost function WaitersAfter(s: State, t: Tid): seq<Tid>
    requires t < |s.at|
  {
    var m := s.guard.sema;
    if s.at[t].Downing? && m.value == 0 then m.waiters + [t]
    else if s.at[t].Upping? && m.waiters != [] then m.waiters[1..]
    else m.waiters
  }

  ghost function ValueAfter(s: State, t: Tid): nat
    requires t < |s.at|
  {
    var v := s.guard.sema.value;
    if s.at[t].Downing? && v > 0 then v - 1 else if s.at[t].Upping? then v + 1 else v
  }

  ghost function HolderAfter(s: State, t: Tid): Option<Tid>
    requires t < |s.at|
  {
    if s.at[t].Owning? then Some(t) else if s.at[t].Unholding? then None else s.guard.holder
  }

  // Which kinds of place the guard's three operations lead to.
  ghost predicate NextPlace(s: State, t: Tid, x: Place)
    requires t < |s.at|
  {
    match s.at[t]
    case Outside => x.Outside? || x.Downing?
    case Holding(_) => x.Downing?
    case Downing(_) => if s.guard.sema.value == 0 then x.GuardBlocked? else x.Owning?
    case GuardBlocked(_) => x.GuardBlocked?
    case Owning(_) => x.Inside?
    case Inside(_) => x.Signalling? || x.Broadcasting? || x.Unholding?
    case Signalling => x.Unholding?
    case Broadcasting => x.Broadcasting? || x.Unholding?
    case Unholding(_) => x.Upping?
    case Upping(_) => x.Outside? || x.Holding? || x.Waiting?
    case Waiting(_) => x.WaitBlocked? || x.Downing?
    case WaitBlocked(_) => x.WaitBlocked?
  }

  lemma GuardAfter(s: State, a: Action)
    requires |s.at| == |s.waiter| && a.t < |s.at|
    ensures Step(s, a).guard == Lock(HolderAfter(s, a.t), Sema(ValueAfter(s, a.t), WaitersAfter(s, a.t)))
    ensures NextPlace(s, a.t, Step(s, a).at[a.t])
  {}

  lemma GuardStep(s: State, a: Action)
    requires Inv(s) && a.t < |s.at|
    ensures GuardInv(Step(s, a))
  {
    hide Count, QueueInv, CounterInv, CondInv, WakeInv, Step;
    var t, s' := a.t, Step(s, a);
    StepCounts(s, a);
    GuardAfter(s, a);
    forall u | 0 <= u < |s'.at| ensures s'.guard.holder == Some(u) <==> HoldsGuard(s'.at[u]) {
      if u != t {
        OthersStay(s, a, u);
        if InGuard(s.at[t]) && InGuard(s.at[u]) {
          AloneInGuard(s, t, u);
        }
      }
    }
  }

  lemma QueueStep(s: State, a: Action)
    requires Inv(s) && a.t < |s.at|
    ensures QueueInv(Step(s, a))
  {
    hide Count, GuardInv, CounterInv, CondInv, WakeInv, Step;
    var t, s', m := a.t, Step(s, a), s.guard.sema;
    GuardAfter(s, a);
    DowningCount(s, a);
    DistinctParts(m.waiters);
    assert t in m.waiters <==> s.at[t].GuardBlocked?;
    forall u | 0 <= u < |s'.at| ensures u in s'.guard.sema.waiters <==> s'.at[u].GuardBlocked? {
      if u != t {
        WokenPlace(s, a, u);
        if s.at[t].Signalling? || s.at[t].Broadcasting? {
          if Upped(s, t).waiters != [] {
            SignalledIsNotGuardBlocked(s, t);
          }
        }
      }
    }
  }

  ghost predicate SameCounters(s: State, s': State) {
    s'.AR == s.AR && s'.AW == s.AW && s'.WR == s.WR && s'.WW == s.WW
  }

  // Outside its section under the guard a thread changes no counter and stays in the same class.
  lemma NoSection(s: State, a: Action)
    requires |s.at| == |s.waiter| && a.t < |s.at| && !s.at[a.t].Inside?
    ensures SameCounters(s, Step(s, a)) && ClassOf(s.at[a.t]) == ClassOf(Step(s, a).at[a.t])
  {
    var p := s.at[a.t];
    if p.Signalling? || p.Broadcasting? {
      SignalSection(s, a);
    } else if p.Outside? || p.Holding? || p.Waiting? || p.WaitBlocked? {
      OwnSection(s, a);
    } else {
      GuardSection(s, a);
    }
  }

  lemma OwnSection(s: State, a: Action)
    requires |s.at| == |s.waiter| && a.t < |s.at|
    requires var p := s.at[a.t]; p.Outside? || p.Holding? || p.Waiting? || p.WaitBlocked?
    ensures SameCounters(s, Step(s, a)) && ClassOf(s.at[a.t]) == ClassOf(Step(s, a).at[a.t])
  {}

  lemma GuardSection(s: State, a: Action)
    requires |s.at| == |s.waiter| && a.t < |s.at|
    requires var p := s.at[a.t]; p.Downing? || p.GuardBlocked? || p.Owning? || p.Unholding? || p.Upping?
    ensures SameCounters(s, Step(s, a)) && ClassOf(s.at[a.t]) == ClassOf(Step(s, a).at[a.t])
  {}

  lemma SignalSection(s: State, a: Action)
    requires |s.at| == |s.waiter| && a.t < |s.at| && (s.at[a.t].Signalling? || s.at[a.t].Broadcasting?)
    ensures SameCounters(s, Step(s, a))
    ensures Step(s, a).at[a.t].Unholding? || Step(s, a).at[a.t].Broadcasting?
    ensures ClassOf(s.at[a.t]) == ClassOf(Step(s, a).at[a.t])
  {}

  // What a thread's section does to the counters, and to its own class.
  ghost predicate SectionEffect(s: State, s': State, t: Tid, g: Goal)
    requires t < |s.at| == |s'.at|
  {
    var x := s'.at[t];
    match g
    case Release(Reader) => s' == s.(at := s'.at, AR := s.AR - 1) && ClassOf(x) == Free
    case Release(Writer) => s' == s.(at := s'.at, AW := s.AW - 1) && ClassOf(x) == Free
    case Acquire(r) => EnterEffect(s, s', x, r, false)
    case Rewait(r) => EnterEffect(s, s', x, r, true)
  }

  ghost predicate EnterEffect(s: State, s': State, x: Place, r: Role, again: bool) {
    var ww := if again && r == Writer then s.WW - 1 else s.WW;
    var wr := if again && r == Reader then s.WR - 1 else s.WR;
    if r == Reader then
      if s.AW + ww > 0 then
        s'.AR == s.AR && s'.AW == s.AW && s'.WW == ww && s'.WR == wr + 1 && ClassOf(x) == Queued(Reader)
      else
        s'.AR == s.AR + 1 && s'.AW == s.AW && s'.WW == ww && s'.WR == wr && ClassOf(x) == Active(Reader)
    else
      if s.AR + s.AW > 0 then
        s'.AR == s.AR && s'.AW == s.AW && s'.WW == ww + 1 && s'.WR == wr && ClassOf(x) == Queued(Writer)
      else
        s'.AR == s.AR && s'.AW == s.AW + 1 && s'.WW == ww && s'.WR == wr && ClassOf(x) == Active(Writer)
  }

  lemma EnterDoes(s: State, t: Tid, r: Role, again: bool)
    requires |s.at| == |s.waiter| && t < |s.at|
    ensures var s' := TryEnter(if again then LeaveWait(s, r) else s, t, r);
            |s'.at| == |s.at| && EnterEffect(s, s', s'.at[t], r, again)
  {}

  lemma SectionDoes(s: State, a: Action)
    requires |s.at| == |s.waiter| && a.t < |s.at| && s.at[a.t].Inside?
    ensures SectionEffect(s, Step(s, a), a.t, s.at[a.t].goal)
  {
    match s.at[a.t].goal
    case Acquire(r) => EnterDoes(s, a.t, r, false); hide TryEnter, LeaveWait, EnterEffect;
    case Rewait(r) => EnterDoes(s, a.t, r, true); hide TryEnter, LeaveWait, EnterEffect;
    case Release(r) => hide TryEnter, EnterEffect;
  }

  // The arithmetic of one section.
  lemma CounterSection(s: State, s': State, t: Tid, g: Goal)
    requires CounterInv(s) && CountsFollow(s.at, s'.at, t)
    requires ClassOf(s.at[t]) == GoalClass(g) && SectionEffect(s, s', t, g)
    ensures CounterInv(s')
  {
    hide Count, InGuard, ClassOf;
    match g
    case Acquire(_) =>
    case Rewait(_) =>
    case Release(_) =>
  }

  lemma CounterStep(s: State, a: Action)
    requires Inv(s) && a.t < |s.at|
    ensures CounterInv(Step(s, a))
  {
    hide Count, GuardInv, QueueInv, CondInv, WakeInv, Step;
    StepCounts(s, a);
    if s.at[a.t].Inside? {
      hide SectionEffect, CountsFollow, CounterInv;
      SectionDoes(s, a);
      CounterSection(s, Step(s, a), a.t, s.at[a.t].goal);
    } else {
      NoSection(s, a);
      hide ClassOf;
    }
  }

  // ---- Condition variables ----

  lemma OneWaiter(s: State, u: Tid)
    requires |s.at| == |s.waiter| && CondInv(s) && u < |s.at|
    ensures CondFor(s, u)
  {}

  // A thread in the section joins the queue of its role and starts a fresh semaphore, or touches
  // neither queue.
  ghost predicate QueuesAfter(s: State, s': State, t: Tid)
    requires t < |s.at| == |s.waiter| && t < |s'.at|
  {
    var x := s'.at[t];
    && s'.at == s.at[t := x]
    && if x == Unholding(BeWaiting(Reader)) then
         s'.read == s.read + [t] && s'.write == s.write && s'.waiter == s.waiter[t := Sema(0, [])]
       else if x == Unholding(BeWaiting(Writer)) then
         s'.read == s.read && s'.write == s.write + [t] && s'.waiter == s.waiter[t := Sema(0, [])]
       else
         s'.read == s.read && s'.write == s.write && s'.waiter == s.waiter && !Pending(x, Reader) && !Pending(x, Writer)
  }

  lemma EnterQueues(s: State, t: Tid, r: Role)
    requires t < |s.at| == |s.waiter|
    ensures |TryEnter(s, t, r).at| == |s.at| && QueuesAfter(s, TryEnter(s, t, r), t)
  {}

  lemma SectionQueues(s: State, a: Action)
    requires |s.at| == |s.waiter| && a.t < |s.at| && s.at[a.t].Inside?
    ensures QueuesAfter(s, Step(s, a), a.t)
  {
    match s.at[a.t].goal
    case Acquire(r) => EnterQueues(s, a.t, r); hide TryEnter;
    case Rewait(r) => EnterQueues(LeaveWait(s, r), a.t, r); hide TryEnter;
    case Release(r) => hide TryEnter;
  }

  lemma CondSection(s: State, a: Action)
    requires Inv(s) && a.t < |s.at| && s.at[a.t].Inside?
    ensures CondInv(Step(s, a))
  {
    hide GuardInv, QueueInv, CounterInv, WakeInv, Step;
    OneWaiter(s, a.t);
    SectionQueues(s, a);
    var s' := Step(s, a);
    forall u | 0 <= u < |s'.at| ensures CondFor(s', u) {
      OneWaiter(s, u);
    }
  }

  // The first waiter is popped, woken if it was blocked, and its semaphore becomes 1.
  lemma SignalQueues(s: State, a: Action)
    requires |s.at| == |s.waiter| && a.t < |s.at| && CondInv(s)
    requires s.at[a.t].Signalling? || s.at[a.t].Broadcasting?
    ensures var s', q := Step(s, a), if s.at[a.t].Signalling? then s.write else s.read;
            && s'.read == (if s.at[a.t].Broadcasting? && q != [] then q[1..] else s.read)
            && s'.write == (if s.at[a.t].Signalling? && q != [] then q[1..] else s.write)
            && (q == [] ==> s'.waiter == s.waiter)
            && (q != [] ==> q[0] < |s.at| && s'.waiter == s.waiter[q[0] := Sema(1, [])])
            && !Pending(s'.at[a.t], Reader) && !Pending(s'.at[a.t], Writer)
  {
    hide CondInv;
    FirstWaiter(s, if s.at[a.t].Signalling? then Writer else Reader);
    var q := if s.at[a.t].Signalling? then s.write else s.read;
    if q != [] {
      assert [q[0]][1..] == [];
      assert Up(s.waiter[q[0]]) == Sema(1, []);
    }
  }

  // Signalling leaves everybody on the queues except the first waiter of the signalled one.
  lemma PoppedMember(s: State, a: Action, u: Tid)
    requires Inv(s) && a.t < |s.at| && (s.at[a.t].Signalling? || s.at[a.t].Broadcasting?)
    ensures var s', p := Step(s, a), s.at[a.t];
            && (u in s'.read <==> u in s.read && !(p.Broadcasting? && u == s.read[0]))
            && (u in s'.write <==> u in s.write && !(p.Signalling? && u == s.write[0]))
  {
    hide GuardInv, QueueInv, CounterInv, CondInv, WakeInv, Step;
    UnfoldQueues(s);
    DistinctParts(s.read);
    DistinctParts(s.write);
    SignalQueues(s, a);
  }

  lemma CondSignalFor(s: State, a: Action, u: Tid)
    requires Inv(s) && a.t < |s.at| && u < |s.at| && (s.at[a.t].Signalling? || s.at[a.t].Broadcasting?)
    ensures CondFor(Step(s, a), u)
  {
    hide GuardInv, QueueInv, CounterInv, CondInv, WakeInv, Step, Distinct;
    var r := if s.at[a.t].Signalling? then Writer else Reader;
    var q := if r == Writer then s.write else s.read;
    FirstWaiter(s, r);
    PoppedMember(s, a, u);
    SignalQueues(s, a);
    OneWaiter(s, u);
    if u == a.t {
      hide Upped;
    } else if q != [] && u == q[0] {
      WokenPlace(s, a, u);
    } else {
      WokenPlace(s, a, u);
      assert Step(s, a).at[u] == s.at[u];
      hide Upped, Pending;
    }
  }

  lemma UnfoldQueues(s: State)
    requires CondInv(s)
    ensures Distinct(s.read) && Distinct(s.write)
    ensures forall t | t in s.read :: t < |s.at|
    ensures forall t | t in s.write :: t < |s.at|
  {}

  lemma CondSignal(s: State, a: Action)
    requires Inv(s) && a.t < |s.at| && (s.at[a.t].Signalling? || s.at[a.t].Broadcasting?)
    ensures CondInv(Step(s, a))
  {
    hide GuardInv, QueueInv, CounterInv, WakeInv, Step, CondFor;
    var s' := Step(s, a);
    var q := if s.at[a.t].Signalling? then s.write else s.read;
    UnfoldQueues(s);
    DistinctParts(q);
    SignalQueues(s, a);
    forall u | 0 <= u < |s'.at| ensures CondFor(s', u) {
      CondSignalFor(s, a, u);
    }
  }

  // sema_down() of the thread's own semaphore.
  lemma CondDown(s: State, a: Action)
    requires Inv(s) && a.t < |s.at| && (s.at[a.t].Waiting? || s.at[a.t].WaitBlocked?)
    ensures CondInv(Step(s, a))
  {
    hide GuardInv, QueueInv, CounterInv, WakeInv;
    var s' := Step(s, a);
    forall u | 0 <= u < |s'.at| ensures CondFor(s', u) {
      OneWaiter(s, u);
    }
  }

  // No other step touches the queues or the waiter semaphores.
  lemma CondElsewhere(s: State, a: Action)
    requires |s.at| == |s.waiter| && a.t < |s.at|
    requires var p := s.at[a.t]; !p.Inside? && !p.Signalling? && !p.Broadcasting? && !p.Waiting? && !p.WaitBlocked?
    ensures var s', p := Step(s, a), s.at[a.t];
            && s'.read == s.read && s'.write == s.write && s'.waiter == s.waiter
            && Pending(s'.at[a.t], Reader) == Pending(p, Reader)
            && Pending(s'.at[a.t], Writer) == Pending(p, Writer)
            && !s'.at[a.t].WaitBlocked?
  {}

  lemma CondOther(s: State, a: Action)
    requires Inv(s) && a.t < |s.at|
    requires var p := s.at[a.t]; !p.Inside? && !p.Signalling? && !p.Broadcasting? && !p.Waiting? && !p.WaitBlocked?
    ensures CondInv(Step(s, a))
  {
    hide GuardInv, CounterInv, WakeInv, Step;
    var t, s' := a.t, Step(s, a);
    CondElsewhere(s, a);
    forall u | 0 <= u < |s'.at| ensures CondFor(s', u) {
      OneWaiter(s, u);
      if u != t {
        WokenPlace(s, a, u);
        if Upped(s, t).waiters != [] {
          assert Upped(s, t).waiters[0] in s.guard.sema.waiters;
        }
      }
    }
  }

  lemma CondStep(s: State, a: Action)
    requires Inv(s) && a.t < |s.at|
    ensures CondInv(Step(s, a))
  {
    hide *;
    var p := s.at[a.t];
    if p.Inside? {
      CondSection(s, a);
    } else if p.Signalling? || p.Broadcasting? {
      CondSignal(s, a);
    } else if p.Waiting? || p.WaitBlocked? {
      CondDown(s, a);
    } else {
      CondOther(s, a);
    }
  }

  // ---- No lost wakeups ----

  // A thread on a queue is counted by WR or WW.
  lemma QueueCounted(s: State)
    requires |s.at| == |s.waiter| && CondInv(s) && CounterInv(s)
    ensures s.read != [] ==> s.WR > 0
    ensures s.write != [] ==> s.WW > 0
  {
    hide CondInv, Count;
    FirstWaiter(s, Reader);
    FirstWaiter(s, Writer);
    if s.read != [] {
      CountMember(s.at, QueuedReader, s.read[0]);
    }
    if s.write != [] {
      CountMember(s.at, QueuedWriter, s.write[0]);
    }
  }

  lemma ActiveCounted(s: State, t: Tid)
    requires CounterInv(s) && t < |s.at|
    ensures ActiveReader(s.at[t]) ==> s.AR > 0
    ensures ActiveWriter(s.at[t]) ==> s.AW > 0
    ensures QueuedReader(s.at[t]) ==> s.WR > 0
    ensures QueuedWriter(s.at[t]) ==> s.WW > 0
  {
    hide Count;
    if ActiveReader(s.at[t]) { CountMember(s.at, ActiveReader, t); }
    if ActiveWriter(s.at[t]) { CountMember(s.at, ActiveWriter, t); }
    if QueuedReader(s.at[t]) { CountMember(s.at, QueuedReader, t); }
    if QueuedWriter(s.at[t]) { CountMember(s.at, QueuedWriter, t); }
  }

  // While t runs its section nobody is signalling or broadcasting.
  lemma SectionIsAlone(s: State, t: Tid)
    requires GuardInv(s) && t < |s.at| && s.at[t].Inside?
    ensures forall u | 0 <= u < |s.at| :: !s.at[u].Signalling? && !s.at[u].Broadcasting?
  {
    hide GuardInv;
    forall u | 0 <= u < |s.at| ensures !s.at[u].Signalling? && !s.at[u].Broadcasting? {
      if InGuard(s.at[u]) {
        AloneInGuard(s, t, u);
      }
    }
  }

  // What a release leads to.
  lemma ReleaseLeadsTo(s: State, a: Action, r: Role)
    requires |s.at| == |s.waiter| && a.t < |s.at| && s.at[a.t] == Inside(Release(r))
    ensures var x := Step(s, a).at[a.t];
            if r == Reader then
              (s.AR - 1 == 0 && s.WW > 0 ==> x.Signalling?)
            else
              (s.WW > 0 ==> x.Signalling?) && (s.WW <= 0 && s.WR > 0 ==> x.Broadcasting?)
  {}

  // A thread that enters, or goes (back) to wait, leaves the wakeups of the others as they were.
  lemma WakeEnter(s: State, s': State, t: Tid, r: Role, again: bool)
    requires t < |s.at| == |s.waiter| && t < |s'.at|
    requires EnterEffect(s, s', s'.at[t], r, again) && QueuesAfter(s, s', t)
    requires ClassOf(s.at[t]) == if again then Queued(r) else Free
    requires s.AR >= 0 && s.AW >= 0 && s.WW >= (if again && r == Writer then 1 else 0)
    requires s.read != [] ==> s.AW + s.WW > 0
    requires s.write != [] ==> s.AR + s.AW > 0 || exists u | 0 <= u < |s.at| :: Signalled(s, u)
    ensures ReadersOk(s') && WritersOk(s')
  {
    if r == Reader && s.write != [] && s.AR + s.AW <= 0 {
      var u :| 0 <= u < |s.at| && Signalled(s, u);
      assert s'.write == s.write && u != t;
      assert Signalled(s', u);
    }
  }

  lemma WakeSection(s: State, a: Action)
    requires Inv(s) && a.t < |s.at| && s.at[a.t].Inside?
    ensures ReadersOk(Step(s, a)) && WritersOk(Step(s, a))
  {
    hide Count, QueueInv, CondInv, GuardInv, Step;
    var t, s', g := a.t, Step(s, a), s.at[a.t].goal;
    SectionIsAlone(s, t);
    SectionDoes(s, a);
    SectionQueues(s, a);
    QueueCounted(s);
    ActiveCounted(s, t);
    match g
    case Release(r) =>
      ReleaseLeadsTo(s, a, r);
    case Acquire(r) =>
      hide EnterEffect, QueuesAfter;
      WakeEnter(s, s', t, r, false);
    case Rewait(r) =>
      hide EnterEffect, QueuesAfter;
      WakeEnter(s, s', t, r, true);
  }

  // The signalled writer is on its way; the broadcast goes on while readers are left.
  lemma WakeSignal(s: State, a: Action)
    requires Inv(s) && a.t < |s.at| && (s.at[a.t].Signalling? || s.at[a.t].Broadcasting?)
    ensures ReadersOk(Step(s, a)) && WritersOk(Step(s, a))
  {
    hide Count, QueueInv, CounterInv, CondInv, GuardInv, Step;
    var t, s' := a.t, Step(s, a);
    SignalSection(s, a);
    SignalQueues(s, a);
    SoleSignaller(s, t);
    if s.at[t].Signalling? {
      if s.write != [] {
        var w := s.write[0];
        FirstWaiter(s, Writer);
        PoppedMember(s, a, w);
        WokenPlace(s, a, w);
        assert Signalled(s', w);
      }
    } else {
      if s.read != [] {
        BroadcastStays(s, a);
      }
      if s.write != [] && s.AR + s.AW <= 0 {
        var u :| 0 <= u < |s.at| && Signalled(s, u);
        WokenPlace(s, a, u);
        assert Signalled(s', u);
      }
    }
  }

  lemma BroadcastStays(s: State, a: Action)
    requires |s.at| == |s.waiter| && CondInv(s) && a.t < |s.at| && s.at[a.t].Broadcasting? && s.read != []
    ensures Step(s, a).at[a.t].Broadcasting?
  {
    hide CondInv;
    FirstWaiter(s, Reader);
  }

  lemma SoleSignaller(s: State, t: Tid)
    requires GuardInv(s) && t < |s.at| && (s.at[t].Signalling? || s.at[t].Broadcasting?)
    ensures forall u | 0 <= u < |s.at| && u != t :: !s.at[u].Signalling? && !s.at[u].Broadcasting?
  {
    hide GuardInv;
    forall u | 0 <= u < |s.at| && u != t ensures !s.at[u].Signalling? && !s.at[u].Broadcasting? {
      if InGuard(s.at[u]) {
        AloneInGuard(s, t, u);
      }
    }
  }

  // Every other step leaves the counters and queues alone, and whoever was to signal still is.
  lemma WakeOther(s: State, a: Action)
    requires Inv(s) && a.t < |s.at|
    requires var p := s.at[a.t]; !p.Inside? && !p.Signalling? && !p.Broadcasting?
    ensures ReadersOk(Step(s, a)) && WritersOk(Step(s, a))
  {
    hide Count, QueueInv, CounterInv, CondInv, GuardInv, Step;
    var t, s' := a.t, Step(s, a);
    NoSection(s, a);
    QueuesStay(s, a);
    if u :| 0 <= u < |s.at| && s.at[u].Broadcasting? {
      OthersStay(s, a, u);
    }
    if u :| 0 <= u < |s.at| && s.at[u].Signalling? {
      OthersStay(s, a, u);
    }
    if u :| 0 <= u < |s.at| && Signalled(s, u) {
      if u != t {
        OthersStay(s, a, u);
      }
      assert Signalled(s', u);
    }
  }

  lemma QueuesStay(s: State, a: Action)
    requires |s.at| == |s.waiter| && a.t < |s.at|
    requires var p := s.at[a.t]; !p.Inside? && !p.Signalling? && !p.Broadcasting?
    ensures Step(s, a).read == s.read && Step(s, a).write == s.write
  {}

  // ---- Every reachable state ----

  lemma StepInv(s: State, a: Action)
    requires Inv(s)
    ensures Inv(Step(s, a))
  {
    if a.t < |s.at| {
      GuardStep(s, a);
      QueueStep(s, a);
      CounterStep(s, a);
      CondStep(s, a);
      var p := s.at[a.t];
      if p.Inside? {
        WakeSection(s, a);
      } else if p.Signalling? || p.Broadcasting? {
        WakeSignal(s, a);
      } else {
        WakeOther(s, a);
      }
      hide GuardInv, QueueInv, CounterInv, CondInv, Step;
    }
  }

  lemma {:induction false} RunInv(n: nat, actions: seq<Action>)
    ensures Inv(Run(Init(n), actions))
  {
    if actions == [] {
      InitInv(n);
    } else {
      RunInv(n, actions[..|actions| - 1]);
      StepInv(Run(Init(n), actions[..|actions| - 1]), actions[|actions| - 1]);
    }
  }

  // ---- What the lock promises, in every run of any number of threads ----

  // The counters are the numbers of threads that hold or await the lock, and a writer excludes everyone.
  lemma Exclusion(n: nat, actions: seq<Action>)
    ensures var s := Run(Init(n), actions);
            && s.AR == Count(s.at, ActiveReader) && s.AW == Count(s.at, ActiveWriter)
            && s.WR == Count(s.at, QueuedReader) && s.WW == Count(s.at, QueuedWriter)
            && forall t, u | 0 <= t < n && 0 <= u < n && t != u && ActiveWriter(s.at[t]) ::
                 !ActiveReader(s.at[u]) && !ActiveWriter(s.at[u])
  {
    hide Count, Run;
    RunInv(n, actions);
    var s := Run(Init(n), actions);
    forall t, u | 0 <= t < n && 0 <= u < n && t != u && ActiveWriter(s.at[t])
      ensures !ActiveReader(s.at[u]) && !ActiveWriter(s.at[u])
    {
      ActiveCounted(s, t);
      ActiveCounted(s, u);
      if ActiveWriter(s.at[u]) {
        CountPair(s.at, ActiveWriter, if t < u then t else u, if t < u then u else t);
      }
    }
  }

  // Every ASSERT about the guard holds: a thread in its section, signalling or releasing is the holder,
  // a thread that starts to acquire is not, and no two threads are inside.
  lemma GuardAssertions(n: nat, actions: seq<Action>)
    ensures var s := Run(Init(n), actions);
            && (forall t | 0 <= t < n :: HoldsGuard(s.at[t]) <==> s.guard.holder == Some(t))
            && (forall t, u | 0 <= t < n && 0 <= u < n && InGuard(s.at[t]) && InGuard(s.at[u]) :: t == u)
            && s.guard.sema.value + Count(s.at, InGuard) == 1
  {
    hide Count, Run;
    RunInv(n, actions);
    var s := Run(Init(n), actions);
    forall t, u | 0 <= t < n && 0 <= u < n && InGuard(s.at[t]) && InGuard(s.at[u]) ensures t == u {
      AloneInGuard(s, t, u);
    }
  }

  // With the guard free, a reader waits only for a writer, and a writer only for the holders or for a
  // writer that has been signalled already. If neither is there, nobody waits.
  lemma NoLostWakeup(n: nat, actions: seq<Action>)
    requires Run(Init(n), actions).guard.sema.value == 1
    ensures var s := Run(Init(n), actions);
            && (s.read != [] ==> s.AW + s.WW > 0)
            && (s.write != [] ==> s.AR + s.AW > 0 || exists t | 0 <= t < n :: Signalled(s, t))
            && (s.AR == 0 && s.AW == 0 && (forall t | 0 <= t < n :: !Signalled(s, t)) ==> s.read == [] && s.write == [])
  {
    hide Count, Run;
    RunInv(n, actions);
    var s := Run(Init(n), actions);
    GuardIsFree(s);
    if forall t | 0 <= t < n :: !Signalled(s, t) {
      UnsignalledOnQueue(s);
    }
  }

  // Where no writer has been signalled, every waiting writer is still on the queue.
  lemma UnsignalledOnQueue(s: State)
    requires CounterInv(s) && forall t | 0 <= t < |s.at| :: !Signalled(s, t)
    ensures s.WW > 0 ==> s.write != []
  {
    hide Count;
    if s.WW > 0 {
      var w := CountWitness(s.at, QueuedWriter);
      assert !Signalled(s, w);
      assert w in s.write;
    }
  }

  lemma GuardIsFree(s: State)
    requires Inv(s) && s.guard.sema.value == 1
    ensures forall t | 0 <= t < |s.at| :: !InGuard(s.at[t])
  {
    hide Count;
    forall t | 0 <= t < |s.at| ensures !InGuard(s.at[t]) {
      if InGuard(s.at[t]) {
        CountMember(s.at, InGuard, t);
      }
    }
  }

  // Nothing left to run: every thread is outside, holds the lock, or is blocked.
  predicate AtRest(p: Place) {
    p.Outside? || p.Holding? || IsBlocked(p)
  }

  // No deadlock: when nothing is left to run, a blocked thread waits for a thread that holds the lock.
  lemma NoDeadlock(n: nat, actions: seq<Action>, t: Tid)
    requires t < n
    requires forall u | 0 <= u < n :: AtRest(Run(Init(n), actions).at[u])
    requires IsBlocked(Run(Init(n), actions).at[t])
    ensures exists u | 0 <= u < n :: Run(Init(n), actions).at[u].Holding?
  {
    hide Run;
    RunInv(n, actions);
    var s := Run(Init(n), actions);
    NobodyInGuard(s);
    GuardQueueEmpty(s);
    BlockedOnQueue(s, t);
    var u := SomebodyHolds(s);
    assert s.at[u].Holding?;
  }

  lemma BlockedOnQueue(s: State, t: Tid)
    requires |s.at| == |s.waiter| && CondInv(s) && t < |s.at| && s.at[t].WaitBlocked?
    ensures t in s.read || t in s.write
  {
    OneWaiter(s, t);
    match s.at[t].role
    case Reader => assert Pending(s.at[t], Reader);
    case Writer => assert Pending(s.at[t], Writer);
  }

  lemma NobodyInGuard(s: State)
    requires Inv(s) && forall u | 0 <= u < |s.at| :: AtRest(s.at[u])
    ensures s.guard.sema.value == 1
  {
    hide Count;
    if Count(s.at, InGuard) > 0 {
      var u := CountWitness(s.at, InGuard);
    }
  }

  lemma GuardQueueEmpty(s: State)
    requires Inv(s) && s.guard.sema.value == 1 && forall u | 0 <= u < |s.at| :: AtRest(s.at[u])
    ensures s.guard.sema.waiters == [] && forall u | 0 <= u < |s.at| :: !s.at[u].GuardBlocked?
  {
    hide Count;
    if s.guard.sema.waiters != [] {
      var u := CountWitness(s.at, IsDowning);
    }
  }

  lemma SomebodyHolds(s: State) returns (u: Tid)
    requires Inv(s) && (s.read != [] || s.write != [])
    requires forall v | 0 <= v < |s.at| :: AtRest(s.at[v]) && !s.at[v].GuardBlocked?
    ensures u < |s.at| && s.at[u].Holding?
  {
    hide Count;
    forall v | 0 <= v < |s.at| ensures !Signalled(s, v) {
      OneWaiter(s, v);
    }
    UnsignalledOnQueue(s);
    if s.AR > 0 {
      u := CountWitness(s.at, ActiveReader);
    } else {
      u := CountWitness(s.at, ActiveWriter);
    }
  }

  lemma RunOneMore(s: State, actions: seq<Action>, a: Action)
    requires |s.at| == |s.waiter|
    ensures Run(s, actions + [a]) == Step(Run(s, actions), a)
  {
    hide Step;
    assert (actions + [a])[..|actions|] == actions;
  }

  // Writer preference: while writer w waits, no reader becomes active.
  lemma {:induction false} WriterPreference(n: nat, before: seq<Action>, during: seq<Action>, w: Tid, r: Tid)
    requires w < n && r < n
    requires forall k | 0 <= k <= |during| :: QueuedWriter(Run(Init(n), before + during[..k]).at[w])
    ensures ActiveReader(Run(Init(n), before + during).at[r]) ==> ActiveReader(Run(Init(n), before).at[r])
  {
    hide Run, Step, ClassOf;
    if during == [] {
      assert before + during == before;
    } else {
      var m := |during| - 1;
      var init, a := during[..m], during[m];
      forall k | 0 <= k <= m ensures QueuedWriter(Run(Init(n), before + init[..k]).at[w]) {
        assert init[..k] == during[..k];
      }
      WriterPreference(n, before, init, w, r);
      assert init[..m] == init && before + during == before + init + [a];
      RunOneMore(Init(n), before + init, a);
      RunInv(n, before + init);
      NoReaderEnters(Run(Init(n), before + init), a, w, r);
    }
  }

  lemma NoReaderEnters(s: State, a: Action, w: Tid, r: Tid)
    requires Inv(s) && w < |s.at| && r < |s.at| && QueuedWriter(s.at[w])
    ensures ActiveReader(Step(s, a).at[r]) ==> ActiveReader(s.at[r])
  {
    hide Count, Step, GuardInv, QueueInv, CondInv, WakeInv;
    if a.t < |s.at| {
      ActiveCounted(s, w);
      if r != a.t {
        OthersStay(s, a, r);
      } else if s.at[r].Inside? {
        SectionDoes(s, a);
        ActiveCounted(s, r);
        OnlyOneOrMore(s, w, r);
      } else {
        NoSection(s, a);
      }
    } else {
      StepOutOfRange(s, a);
    }
  }

  lemma StepOutOfRange(s: State, a: Action)
    requires |s.at| == |s.waiter| && a.t >= |s.at|
    ensures Step(s, a) == s
  {}

  // A writer that waits is still counted after another thread, or it itself, has stopped being counted.
  lemma OnlyOneOrMore(s: State, w: Tid, r: Tid)
    requires CounterInv(s) && w < |s.at| && r < |s.at| && QueuedWriter(s.at[w])
    ensures w != r && QueuedWriter(s.at[r]) ==> s.WW > 1
  {
    hide Count;
    if w != r && QueuedWriter(s.at[r]) {
      CountPair(s.at, QueuedWriter, if w < r then w else r, if w < r then r else w);
    }
  }

  // ---- Order of service ----

  // The guard's waiters and the two queues are first come, first served: a thread joins at the back, when it blocks
  // or begins to wait; one leaves from the front, when the guard is upped or the queue is signalled.
  lemma FirstComeFirstServed(s: State, a: Action)
    requires Inv(s) && a.t < |s.at|
    ensures var p, r, t := s.at[a.t], Step(s, a), a.t;
            var was, now := s.guard.sema.waiters, r.guard.sema.waiters;
            && now == (if p.Upping? && was != [] then was[1..] else was) + (if p.Downing? && r.at[t].GuardBlocked? then [t] else [])
            && (p.Upping? && was != [] ==> was[0] < |s.at| && s.at[was[0]].GuardBlocked? && r.at[was[0]].Downing?)
            && r.read == (if p.Broadcasting? && s.read != [] then s.read[1..] else s.read)
                         + (if p.Inside? && r.at[t] == Unholding(BeWaiting(Reader)) then [t] else [])
            && r.write == (if p.Signalling? && s.write != [] then s.write[1..] else s.write)
                          + (if p.Inside? && r.at[t] == Unholding(BeWaiting(Writer)) then [t] else [])
  {
    hide Count, GuardInv, CounterInv, WakeInv, CondInv;
    var p := s.at[a.t];
    if p.Inside? {
      SectionQueues(s, a);
      SectionKeepsGuard(s, a);
      hide Step, QueueInv;
    } else if p.Signalling? || p.Broadcasting? {
      SignalQueues(s, a);
      SignalKeepsGuard(s, a);
      hide Step, QueueInv;
    } else {
      QueuesStay(s, a);
      GuardServes(s, a);
      hide Step, QueueInv;
    }
  }

  lemma SectionKeepsGuard(s: State, a: Action)
    requires |s.at| == |s.waiter| && a.t < |s.at| && s.at[a.t].Inside?
    ensures Step(s, a).guard == s.guard
  {}

  lemma SignalKeepsGuard(s: State, a: Action)
    requires |s.at| == |s.waiter| && a.t < |s.at| && (s.at[a.t].Signalling? || s.at[a.t].Broadcasting?)
    ensures Step(s, a).guard == s.guard
  {}

  lemma GuardServes(s: State, a: Action)
    requires |s.at| == |s.waiter| && QueueInv(s) && a.t < |s.at|
    requires var p := s.at[a.t]; !p.Inside? && !p.Signalling? && !p.Broadcasting?
    ensures var p, r, t := s.at[a.t], Step(s, a), a.t;
            var was, now := s.guard.sema.waiters, r.guard.sema.waiters;
            && now == (if p.Upping? && was != [] then was[1..] else was) + (if p.Downing? && r.at[t].GuardBlocked? then [t] else [])
            && (p.Upping? && was != [] ==> was[0] < |s.at| && s.at[was[0]].GuardBlocked? && r.at[was[0]].Downing?)
  {
    hide Count;
    var was := s.guard.sema.waiters;
    if was != [] { assert was[0] in was; }
  }

  // ---- Whom a release signals ----

  // A signal is given only for a free lock: to a writer if one waits, and to the readers only if none does.
  ghost predicate SignalFor(s: State, t: Tid)
    requires t < |s.at|
  {
    && (s.at[t].Signalling? ==> s.AR == 0 && s.AW == 0 && s.WW > 0)
    && (s.at[t].Broadcasting? ==> s.AR == 0 && s.AW == 0 && s.WW == 0 && s.WR > 0)
  }

  lemma {:induction false} SignalsFreeLock(n: nat, actions: seq<Action>, t: Tid)
    requires t < n
    ensures |Run(Init(n), actions).at| == n && SignalFor(Run(Init(n), actions), t)
  {
    hide Inv, Step, SignalFor;
    if actions == [] {
      SignalInit(n, t);
    } else {
      var before, a := actions[..|actions| - 1], actions[|actions| - 1];
      SignalsFreeLock(n, before, t);
      RunInv(n, before);
      SignalStep(Run(Init(n), before), a, t);
    }
  }

  lemma SignalInit(n: nat, t: Tid)
    requires t < n
    ensures SignalFor(Init(n), t)
  {}

  lemma SignalStep(s: State, a: Action, t: Tid)
    requires Inv(s) && t < |s.at| && SignalFor(s, t)
    ensures SignalFor(Step(s, a), t)
  {
    hide Count;
    if a.t < |s.at| && s.at[a.t].Inside? {
      if t == a.t {
        SignalAtLeave(s, a);
      } else {
        if InGuard(s.at[t]) { AloneInGuard(s, t, a.t); }
        SectionOthers(s, a, t);
      }
      hide Step, Inv;
    } else if a.t < |s.at| {
      CountersStay(s, a);
      NoNewSignal(s, a, t);
      hide Step, Inv;
    }
  }

  lemma SignalAtLeave(s: State, a: Action)
    requires Inv(s) && a.t < |s.at| && s.at[a.t].Inside?
    ensures SignalFor(Step(s, a), a.t)
  {
    hide Count;
    ActiveCounted(s, a.t);
  }

  lemma SectionOthers(s: State, a: Action, t: Tid)
    requires |s.at| == |s.waiter| && a.t < |s.at| && s.at[a.t].Inside? && t < |s.at| && t != a.t
    ensures Step(s, a).at[t] == s.at[t]
  {}

  lemma CountersStay(s: State, a: Action)
    requires |s.at| == |s.waiter| && a.t < |s.at| && !s.at[a.t].Inside?
    ensures var r := Step(s, a); r.AR == s.AR && r.AW == s.AW && r.WR == s.WR && r.WW == s.WW
  {
    hide Wake, Up;
  }

  lemma NoNewSignal(s: State, a: Action, t: Tid)
    requires |s.at| == |s.waiter| && a.t < |s.at| && !s.at[a.t].Inside? && t < |s.at|
    ensures var r := Step(s, a);
            (r.at[t].Signalling? ==> s.at[t].Signalling?) && (r.at[t].Broadcasting? ==> s.at[t].Broadcasting?)
  {
    hide Wake, Up, Signal;
    WakeGives(s.at, s.guard.sema, t);
    if s.at[a.t].Signalling? { SignalGives(s, Writer, t); }
    if s.at[a.t].Broadcasting? { SignalGives(s, Reader, t); }
  }

  // A wakeup makes nobody signal.
  lemma WakeGives(at: seq<Place>, m: Sema, t: Tid)
    requires t < |at|
    ensures var r := Wake(at, m);
            (r[t].Signalling? ==> at[t].Signalling?) && (r[t].Broadcasting? ==> at[t].Broadcasting?)
  {}

  lemma SignalGives(s: State, role: Role, t: Tid)
    requires |s.at| == |s.waiter| && t < |s.at|
    ensures var r := Signal(s, role);
            && |r.at| == |s.at|
            && (r.at[t].Signalling? ==> s.at[t].Signalling?) && (r.at[t].Broadcasting? ==> s.at[t].Broadcasting?)
  {
    hide Wake, Up;
    var queue := if role == Reader then s.read else s.write;
    if queue != [] && queue[0] < |s.waiter| { WakeGives(s.at, s.waiter[queue[0]], t); }
  }
}
