// The readers-writers lock, down to the semaphores it is built on, as a step system: any number of
// threads, interleaved wherever interrupts are on. One step is one interrupts-off section of a
// semaphore, one assignment to the guard's holder, or one section run under the guard lock.
module RwLock {
  import opened Common

  type Tid = nat

  datatype Sema = Sema(value: nat, waiters: seq<Tid>)

  datatype Lock = Lock(holder: Option<Tid>, sema: Sema)

  datatype Role = Reader | Writer

  // Why a thread takes the guard lock.
  datatype Goal = Acquire(role: Role) | Release(role: Role) | Rewait(role: Role)

  // What a thread turns to once it has given the guard lock back.
  datatype Then = BeOutside | BeHolding(role: Role) | BeWaiting(role: Role)

  // Where a thread is.
  datatype Place =
    | Outside
    | Holding(role: Role)        // rw_lock_acquire() has returned
    | Downing(goal: Goal)        // in sema_down() of the guard, about to test the value
    | GuardBlocked(goal: Goal)   // on the guard's waiters
    | Owning(goal: Goal)         // value taken, holder not yet set
    | Inside(goal: Goal)         // holder set, about to run its section
    | Signalling                 // about to cond_signal() the writers
    | Broadcasting               // in the loop of cond_broadcast() to the readers
    | Unholding(andThen: Then)   // in lock_release(), about to clear the holder
    | Upping(andThen: Then)      // about to sema_up() the guard
    | Waiting(role: Role)        // in sema_down() of its own waiter semaphore
    | WaitBlocked(role: Role)    // blocked there

  datatype State = State(
    at: seq<Place>,
    guard: Lock,
    read: seq<Tid>,              // waiters of the condition variable "read"
    write: seq<Tid>,             // waiters of the condition variable "write"
    waiter: seq<Sema>,           // each thread's semaphore in cond_wait()
    AR: int, WR: int, AW: int, WW: int)

  // ---- Steps ----

  // A thread starts an acquisition, or goes on with what it is doing.
  datatype Action = Start(t: Tid, role: Role) | Go(t: Tid)

  function Init(n: nat): State {
    State(seq(n, _ => Outside), Lock(None, Sema(1, [])), [], [], seq(n, _ => Sema(0, [])), 0, 0, 0, 0)
  }

  // thread_unblock(): the thread is about to test the semaphore it was blocked on.
  function Unblocked(p: Place): Place {
    match p
    case GuardBlocked(g) => Downing(g)
    case WaitBlocked(r) => Waiting(r)
    case _ => p
  }

  // sema_up(), with the thread it wakes.
  function Up(m: Sema): Sema {
    if m.waiters == [] then Sema(m.value + 1, []) else Sema(m.value + 1, m.waiters[1..])
  }

  function Wake(at: seq<Place>, m: Sema): (r: seq<Place>)
    ensures |r| == |at|
  {
    if m.waiters == [] || m.waiters[0] >= |at| then at
    else at[m.waiters[0] := Unblocked(at[m.waiters[0]])]
  }

  function After(th: Then): Place {
    match th
    case BeOutside => Outside
    case BeHolding(r) => Holding(r)
    case BeWaiting(r) => Waiting(r)
  }

  predicate MustWait(s: State, r: Role) {
    if r == Reader then s.AW + s.WW > 0 else s.AR + s.AW > 0
  }

  // The loop test of rw_lock_acquire() under the guard, up to the release of the guard.
  function TryEnter(s: State, t: Tid, r: Role): State
    requires t < |s.at| == |s.waiter|
  {
    if MustWait(s, r) then
      var s1 := s.(at := s.at[t := Unholding(BeWaiting(r))], waiter := s.waiter[t := Sema(0, [])]);
      if r == Reader then s1.(WR := s.WR + 1, read := s.read + [t]) else s1.(WW := s.WW + 1, write := s.write + [t])
    else
      var s1 := s.(at := s.at[t := Unholding(BeHolding(r))]);
      if r == Reader then s1.(AR := s.AR + 1) else s1.(AW := s.AW + 1)
  }

  function LeaveWait(s: State, r: Role): State {
    if r == Reader then s.(WR := s.WR - 1) else s.(WW := s.WW - 1)
  }

  // rw_lock_release() under the guard, up to the signal.
  function Leave(s: State, t: Tid, r: Role): State
    requires t < |s.at|
  {
    if r == Reader then
      s.(AR := s.AR - 1,
         at := s.at[t := if s.AR - 1 == 0 && s.WW > 0 then Signalling else Unholding(BeOutside)])
    else
      s.(AW := s.AW - 1,
         at := s.at[t := if s.WW > 0 then Signalling else if s.WR > 0 then Broadcasting else Unholding(BeOutside)])
  }

  function Section(s: State, t: Tid, g: Goal): State
    requires t < |s.at| == |s.waiter|
  {
    match g
    case Acquire(r) => TryEnter(s, t, r)
    case Rewait(r) => TryEnter(LeaveWait(s, r), t, r)
    case Release(r) => Leave(s, t, r)
  }

  // cond_signal(): the first waiter of the condition, if any, is popped and its semaphore upped.
  function Signal(s: State, r: Role): State
    requires |s.at| == |s.waiter|
  {
    var queue := if r == Reader then s.read else s.write;
    if queue == [] || queue[0] >= |s.waiter| then s else
    var u := queue[0];
    var s1 := s.(at := Wake(s.at, s.waiter[u]), waiter := s.waiter[u := Up(s.waiter[u])]);
    if r == Reader then s1.(read := s.read[1..]) else s1.(write := s.write[1..])
  }

  function Step(s: State, a: Action): (r: State)
    requires |s.at| == |s.waiter|
    ensures |r.at| == |r.waiter| == |s.at|
  {
    if a.t >= |s.at| then s else
    var t := a.t;
    match s.at[t]
    case Outside => if a.Start? then s.(at := s.at[t := Downing(Acquire(a.role))]) else s
    case Holding(r) => s.(at := s.at[t := Downing(Release(r))])
    case Downing(g) =>
      if s.guard.sema.value == 0 then
        s.(at := s.at[t := GuardBlocked(g)], guard := s.guard.(sema := Sema(0, s.guard.sema.waiters + [t])))
      else
        s.(at := s.at[t := Owning(g)], guard := s.guard.(sema := Sema(s.guard.sema.value - 1, s.guard.sema.waiters)))
    case GuardBlocked(_) => s
    case Owning(g) => s.(at := s.at[t := Inside(g)], guard := s.guard.(holder := Some(t)))
    case Inside(g) => Section(s, t, g)
    case Signalling => var s1 := Signal(s, Writer); s1.(at := s1.at[t := Unholding(BeOutside)])
    case Broadcasting => if s.read == [] then s.(at := s.at[t := Unholding(BeOutside)]) else Signal(s, Reader)
    case Unholding(th) => s.(at := s.at[t := Upping(th)], guard := s.guard.(holder := None))
    case Upping(th) =>
      s.(at := Wake(s.at, s.guard.sema)[t := After(th)], guard := s.guard.(sema := Up(s.guard.sema)))
    case Waiting(r) =>
      if s.waiter[t].value == 0 then
        s.(at := s.at[t := WaitBlocked(r)], waiter := s.waiter[t := Sema(0, s.waiter[t].waiters + [t])])
      else
        s.(at := s.at[t := Downing(Rewait(r))], waiter := s.waiter[t := Sema(s.waiter[t].value - 1, s.waiter[t].waiters)])
    case WaitBlocked(_) => s
  }

  function Run(s: State, actions: seq<Action>): (r: State)
    requires |s.at| == |s.waiter|
    ensures |r.at| == |r.waiter| == |s.at|
  {
    if actions == [] then s
    else Step(Run(s, actions[..|actions| - 1]), actions[|actions| - 1])
  }

  // ---- Counting threads ----

  ghost function Count(at: seq<Place>, p: Place -> bool): nat {
    if at == [] then 0 else Count(at[..|at| - 1], p) + if p(at[|at| - 1]) then 1 else 0
  }

  lemma {:induction false} CountMove(at: seq<Place>, p: Place -> bool, t: nat, x: Place)
    requires t < |at|
    ensures Count(at[t := x], p) == Count(at, p) - (if p(at[t]) then 1 else 0) + (if p(x) then 1 else 0)
  {
    var n := |at| - 1;
    assert at[t := x][..n] == if t == n then at[..n] else at[..n][t := x];
    if t < n {
      CountMove(at[..n], p, t, x);
    }
  }

  lemma {:induction false} CountMember(at: seq<Place>, p: Place -> bool, t: nat)
    requires t < |at| && p(at[t])
    ensures Count(at, p) > 0
  {
    if t < |at| - 1 {
      CountMember(at[..|at| - 1], p, t);
    }
  }

  lemma {:induction false} CountPair(at: seq<Place>, p: Place -> bool, t: nat, u: nat)
    requires t < u < |at| && p(at[t]) && p(at[u])
    ensures Count(at, p) > 1
  {
    if u < |at| - 1 {
      CountPair(at[..|at| - 1], p, t, u);
    } else {
      CountMember(at[..|at| - 1], p, t);
    }
  }

  lemma {:induction false} CountWitness(at: seq<Place>, p: Place -> bool) returns (t: nat)
    requires Count(at, p) > 0
    ensures t < |at| && p(at[t])
  {
    var n := |at| - 1;
    if p(at[n]) {
      t := n;
    } else {
      t := CountWitness(at[..n], p);
    }
  }

  lemma {:induction false} CountNone(n: nat, p: Place -> bool)
    requires !p(Outside)
    ensures Count(seq(n, _ => Outside), p) == 0
  {
    if n > 0 {
      CountNone(n - 1, p);
      assert seq(n, _ => Outside)[..n - 1] == seq(n - 1, _ => Outside);
    }
  }

  // Past sema_down() of the guard and not yet past its sema_up().
  predicate InGuard(p: Place) {
    p.Owning? || p.Inside? || p.Signalling? || p.Broadcasting? || p.Unholding? || p.Upping?
  }

  // Recorded as holder of the guard: what lock_held_by_current_thread() asserts.
  predicate HoldsGuard(p: Place) {
    p.Inside? || p.Signalling? || p.Broadcasting? || p.Unholding?
  }

  predicate IsDowning(p: Place) { p.Downing? }

  // What a thread counts as for the four counters: active from AR++ (AW++) to AR-- (AW--), queued
  // from WR++ (WW++) to WR-- (WW--).
  datatype Class = Free | Active(role: Role) | Queued(role: Role)

  function GoalClass(g: Goal): Class {
    match g
    case Acquire(_) => Free
    case Release(r) => Active(r)
    case Rewait(r) => Queued(r)
  }

  function ThenClass(th: Then): Class {
    match th
    case BeOutside => Free
    case BeHolding(r) => Active(r)
    case BeWaiting(r) => Queued(r)
  }

  function ClassOf(p: Place): Class {
    match p
    case Holding(r) => Active(r)
    case Downing(g) => GoalClass(g)
    case GuardBlocked(g) => GoalClass(g)
    case Owning(g) => GoalClass(g)
    case Inside(g) => GoalClass(g)
    case Unholding(th) => ThenClass(th)
    case Upping(th) => ThenClass(th)
    case Waiting(r) => Queued(r)
    case WaitBlocked(r) => Queued(r)
    case _ => Free
  }

  predicate ActiveReader(p: Place) { ClassOf(p) == Active(Reader) }
  predicate ActiveWriter(p: Place) { ClassOf(p) == Active(Writer) }
  predicate QueuedReader(p: Place) { ClassOf(p) == Queued(Reader) }
  predicate QueuedWriter(p: Place) { ClassOf(p) == Queued(Writer) }

  // In cond_wait(), not yet back at the guard.
  predicate Pending(p: Place, r: Role) {
    p == Unholding(BeWaiting(r)) || p == Upping(BeWaiting(r)) || p == Waiting(r) || p == WaitBlocked(r)
  }
}
