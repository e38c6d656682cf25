// Threads, the FIFO ready list and counting semaphores of the base kernel. Everything runs with
// interrupts off on one processor, so a step is what the running thread does between two points where
// it may be interrupted.
module Scheduler {
  import opened Common

  type Tid = nat
  type SemaId = nat

  datatype Status = Running | Ready | Blocked | Dying

  // waitingOn: the semaphore whose sema_down() loop the thread is in.
  datatype Thread = Thread(status: Status, waitingOn: Option<SemaId>)

  datatype Sema = Sema(value: nat, waiters: seq<Tid>)

  // Threads are numbered in the order of their creation; 0 is the initial thread.
  datatype State = State(
    threads: seq<Thread>,
    current: Tid,
    ready: seq<Tid>,
    all: seq<Tid>,
    idle: Option<Tid>,
    semas: seq<Sema>,
    ticks: nat,          // timer ticks since the last thread switch
    freed: seq<Tid>)     // threads whose page has been given back

  const TIME_SLICE: nat := 4

  // ---- thread.c ----

  function SetStatus(s: State, t: Tid, status: Status): State
    requires t < |s.threads|
  {
    s.(threads := s.threads[t := s.threads[t].(status := status)])
  }

  // thread_schedule_fifo()
  function NextToRun(s: State): Option<Tid> {
    if s.ready != [] then Some(s.ready[0]) else s.idle
  }

  predicate CanSwitch(s: State) {
    s.current < |s.threads| && NextToRun(s).Some? && NextToRun(s).value < |s.threads|
  }

  // schedule() with thread_switch_tail(). Without an idle thread an empty ready list is fatal.
  function Schedule(s: State): State
    requires CanSwitch(s)
  {
    var prev, next := s.current, NextToRun(s).value;
    var reap := prev != next && s.threads[prev].status == Dying && prev != 0;
    SetStatus(s, next, Running).(
      current := next,
      ready := if s.ready == [] then [] else s.ready[1..],
      ticks := 0,
      freed := if reap then s.freed + [prev] else s.freed)
  }

  // thread_block()
  function Block(s: State): State
    requires CanSwitch(s)
  {
    Schedule(SetStatus(s, s.current, Blocked))
  }

  // thread_unblock()
  function Unblock(s: State, t: Tid): State
    requires t < |s.threads|
  {
    SetStatus(s, t, Ready).(ready := s.ready + [t])
  }

  // thread_yield(): the idle thread is made ready but never enqueued.
  function Yield(s: State): State
    requires s.current < |s.threads|
    requires s.idle == Some(s.current) ==> CanSwitch(s)
    requires s.ready != [] ==> s.ready[0] < |s.threads|
  {
    var s1 := if s.idle == Some(s.current) then s else s.(ready := s.ready + [s.current]);
    Schedule(SetStatus(s1, s.current, Ready))
  }

  function Without(q: seq<Tid>, t: Tid): seq<Tid> {
    if q == [] then [] else if q[0] == t then q[1..] else [q[0]] + Without(q[1..], t)
  }

  // thread_exit()
  function Exit(s: State): State
    requires CanSwitch(s)
  {
    Schedule(SetStatus(s.(all := Without(s.all, s.current)), s.current, Dying))
  }

  // thread_create(): init_thread() leaves the thread blocked, thread_unblock() enqueues it.
  function Create(s: State): State {
    var t := |s.threads|;
    Unblock(s.(threads := s.threads + [Thread(Blocked, None)], all := s.all + [t]), t)
  }

  // ---- synch.c ----

  // One turn of the loop of sema_down(): the running thread takes a unit, or blocks.
  function DownTurn(s: State, i: SemaId): State
    requires i < |s.semas| && s.current < |s.threads| && (s.semas[i].value == 0 ==> CanSwitch(s))
  {
    var m, t := s.semas[i], s.current;
    if m.value == 0 then
      Block(s.(semas := s.semas[i := m.(waiters := m.waiters + [t])],
               threads := s.threads[t := s.threads[t].(waitingOn := Some(i))]))
    else
      s.(semas := s.semas[i := m.(value := m.value - 1)],
         threads := s.threads[t := s.threads[t].(waitingOn := None)])
  }

  // sema_try_down()
  function TryDown(s: State, i: SemaId): State
    requires i < |s.semas|
  {
    var m := s.semas[i];
    if m.value > 0 then s.(semas := s.semas[i := m.(value := m.value - 1)]) else s
  }

  // sema_up()
  function Up(s: State, i: SemaId): State
    requires i < |s.semas| && (s.semas[i].waiters != [] ==> s.semas[i].waiters[0] < |s.threads|)
  {
    var m := s.semas[i];
    var s1 := if m.waiters == [] then s else Unblock(s, m.waiters[0]);
    s1.(semas := s.semas[i := m.(value := m.value + 1,
                                 waiters := if m.waiters == [] then [] else m.waiters[1..])])
  }

  // ---- Steps ----

  // What may happen next. A thread that has been woken inside sema_down() can only test again.
  datatype Action =
    | NewSema(initial: nat)
    | Down(i: SemaId)
    | TestAgain
    | TryTake(i: SemaId)
    | Raise(i: SemaId)
    | Spawn
    | GiveUp
    | Leave
    | BecomeIdle
    | IdleBlock
    | Tick

  predicate Enabled(s: State, a: Action)
    requires s.current < |s.threads|
  {
    var me := s.threads[s.current];
    var isIdle := s.idle == Some(s.current);
    match a
    case TestAgain => me.waitingOn.Some? && me.waitingOn.value < |s.semas| && (s.semas[me.waitingOn.value].value > 0 || NextToRun(s).Some?)
    case Down(i) => me.waitingOn.None? && !isIdle && i < |s.semas| && (s.semas[i].value > 0 || NextToRun(s).Some?)
    case TryTake(i) => me.waitingOn.None? && i < |s.semas|
    case Raise(i) => me.waitingOn.None? && i < |s.semas|
    case NewSema(_) => me.waitingOn.None?
    case Spawn => me.waitingOn.None?
    case GiveUp => me.waitingOn.None?
    case Leave => me.waitingOn.None? && !isIdle && NextToRun(s).Some?
    case BecomeIdle => me.waitingOn.None? && s.idle.None?
    case IdleBlock => isIdle
    case Tick => me.waitingOn.None?
  }

  // ---- The invariant ----

  ghost predicate AllBelow(q: seq<Tid>, n: nat) {
    forall k | 0 <= k < |q| :: q[k] < n
  }

  ghost predicate OnNoQueue(s: State, t: Tid) {
    t !in s.ready && forall i | 0 <= i < |s.semas| :: t !in s.semas[i].waiters
  }

  // Which lists a thread is on follows from its status alone. "mid" says that the running thread has
  // given up its status already and schedule() is about to pick its successor.
  ghost predicate ThreadOk(s: State, t: Tid, mid: bool)
    requires t < |s.threads|
  {
    var me, isIdle := s.threads[t], s.idle == Some(t);
    && (me.status == Running <==> t == s.current && !mid)
    && (me.status == Ready ==> if isIdle then OnNoQueue(s, t) else t in s.ready)
    && (t in s.ready ==> me.status == Ready)
    && (forall i | 0 <= i < |s.semas| && t in s.semas[i].waiters :: me.status == Blocked && me.waitingOn == Some(i))
    && (me.status == Blocked ==>
          if isIdle then OnNoQueue(s, t)
          else me.waitingOn.Some? && me.waitingOn.value < |s.semas| && t in s.semas[me.waitingOn.value].waiters)
    && (me.waitingOn.Some? ==> me.waitingOn.value < |s.semas| && me.status != Dying && !isIdle)
    && (isIdle ==> me.status != Dying)
    && (t in s.all <==> me.status != Dying)
    && (t in s.freed <==> me.status == Dying && t != 0 && !(mid && t == s.current))
  }

  // Threads that have been woken in sema_down() of semaphore i and have not tested it yet.
  ghost function Woken(threads: seq<Thread>, i: SemaId): nat {
    if threads == [] then 0
    else
      var n := |threads| - 1;
      Woken(threads[..n], i) + if IsWoken(threads[n], i) then 1 else 0
  }

  predicate IsWoken(th: Thread, i: SemaId) {
    th.waitingOn == Some(i) && th.status != Blocked
  }

  ghost predicate SemaOk(s: State, i: SemaId)
    requires i < |s.semas|
  {
    var m := s.semas[i];
    && Distinct(m.waiters) && AllBelow(m.waiters, |s.threads|)
    && (m.waiters != [] ==> Woken(s.threads, i) >= m.value)
  }

  ghost predicate ListsOk(s: State) {
    && s.current < |s.threads|
    && (s.idle.Some? ==> s.idle.value < |s.threads|)
    && Distinct(s.ready) && Distinct(s.all) && Distinct(s.freed)
    && AllBelow(s.ready, |s.threads|) && AllBelow(s.all, |s.threads|) && AllBelow(s.freed, |s.threads|)
  }

  ghost predicate InvMid(s: State, mid: bool) {
    && ListsOk(s)
    && (forall t | 0 <= t < |s.threads| :: ThreadOk(s, t, mid))
    && (forall i | 0 <= i < |s.semas| :: SemaOk(s, i))
  }

  ghost predicate Inv(s: State) {
    InvMid(s, false) && s.ticks < TIME_SLICE
  }

  ghost function Step(s: State, a: Action): State
    requires Inv(s) && Enabled(s, a)
  {
    match a
    case NewSema(v) => s.(semas := s.semas + [Sema(v, [])])
    case Down(i) => DownTurn(s, i)
    case TestAgain => DownTurn(s, s.threads[s.current].waitingOn.value)
    case TryTake(i) => TryDown(s, i)
    case Raise(i) => assert SemaOk(s, i); Up(s, i)
    case Spawn => Create(s)
    case GiveUp => Yield(s)
    case Leave => Exit(s)
    case BecomeIdle => s.(idle := Some(s.current))
    case IdleBlock => Block(s)
    case Tick => if s.ticks + 1 >= TIME_SLICE then Yield(s.(ticks := s.ticks + 1)) else s.(ticks := s.ticks + 1)
  }

  function Init(): State {
    State([Thread(Running, None)], 0, [], [0], None, [], 0, [])
  }
}
