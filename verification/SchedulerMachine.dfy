// The thread system as an object: every method updates the fields the way thread.c and synch.c do, and
// is proved to be a step of the model.
module SchedulerMachine {
  import opened Common
  import opened Scheduler
  import opened SchedulerProof

  class Kernel {
    var threads: seq<Thread>
    var current: Tid
    var ready: seq<Tid>
    var all: seq<Tid>
    var idle: Option<Tid>
    var semas: seq<Sema>
    var ticks: nat
    var freed: seq<Tid>

    ghost function Abs(): State
      reads this
    {
      State(threads, current, ready, all, idle, semas, ticks, freed)
    }

    ghost predicate Valid()
      reads this
    {
      Inv(Abs())
    }

    // thread_init()
    constructor ()
      ensures Valid() && Abs() == Init()
    {
      threads, current, ready, all := [Thread(Running, None)], 0, [], [0];
      idle, semas, ticks, freed := None, [], 0, [];
    }

    // schedule() and thread_switch_tail()
    method Schedule()
      requires CanSwitch(Abs())
      modifies this
      ensures Abs() == Scheduler.Schedule(old(Abs()))
    {
      var prev, next := current, 0;
      if ready != [] {
        next := ready[0];
        ready := ready[1..];
      } else {
        next := idle.value;
      }
      var dying := threads[prev].status == Dying;
      current := next;
      threads := threads[next := threads[next].(status := Running)];
      ticks := 0;
      if prev != next && dying && prev != 0 {
        freed := freed + [prev];
      }
    }

    // thread_block()
    method Block()
      requires CanSwitch(Abs())
      modifies this
      ensures Abs() == Scheduler.Block(old(Abs()))
    {
      threads := threads[current := threads[current].(status := Blocked)];
      Schedule();
    }

    // One turn of the idle thread's loop.
    method IdleTurn()
      requires Valid() && Enabled(Abs(), IdleBlock)
      modifies this
      ensures Valid() && Abs() == Step(old(Abs()), IdleBlock)
    {
      StepInv(Abs(), IdleBlock);
      IdleBlockInv(Abs());
      Block();
    }

    // thread_unblock()
    method Unblock(t: Tid)
      requires t < |threads|
      modifies `threads, `ready
      ensures Abs() == Scheduler.Unblock(old(Abs()), t)
    {
      ready := ready + [t];
      threads := threads[t := threads[t].(status := Ready)];
    }

    method Yield()
      requires Valid() && Enabled(Abs(), GiveUp)
      modifies this
      ensures Valid() && Abs() == Step(old(Abs()), GiveUp)
    {
      StepInv(Abs(), GiveUp);
      if idle != Some(current) {
        ready := ready + [current];
      }
      threads := threads[current := threads[current].(status := Ready)];
      Schedule();
    }

    method Exit()
      requires Valid() && Enabled(Abs(), Leave)
      modifies this
      ensures Valid() && Abs() == Step(old(Abs()), Leave)
    {
      StepInv(Abs(), Leave);
      all := Without(all, current);
      threads := threads[current := threads[current].(status := Dying)];
      Schedule();
    }

    // thread_create(); `page` says whether a page for the thread can be had. None is TID_ERROR.
    method Create(page: bool) returns (t: Option<Tid>)
      requires Valid() && Enabled(Abs(), Spawn)
      modifies this
      ensures Valid() && (t.Some? <==> page)
      ensures Abs() == if page then Step(old(Abs()), Spawn) else old(Abs())
      ensures page ==> t == Some(old(|threads|)) && threads[t.value] == Thread(Ready, None)
    {
      if !page {
        return None;
      }
      StepInv(Abs(), Spawn);
      var u := |threads|;
      threads := threads + [Thread(Blocked, None)];
      all := all + [u];
      Unblock(u);
      return Some(u);
    }

    // One turn of the loop of sema_down(): the first, or one after being woken.
    method DownTurn(i: SemaId)
      requires Valid()
      requires Enabled(Abs(), Down(i)) || (Enabled(Abs(), TestAgain) && threads[current].waitingOn == Some(i))
      modifies this
      ensures Valid()
      ensures old(threads[current].waitingOn.None?) ==> Abs() == Step(old(Abs()), Down(i))
      ensures old(threads[current].waitingOn.Some?) ==> Abs() == Step(old(Abs()), TestAgain)
    {
      StepInv(Abs(), if threads[current].waitingOn.None? then Down(i) else TestAgain);
      var m := semas[i];
      if m.value == 0 {
        semas := semas[i := m.(waiters := m.waiters + [current])];
        threads := threads[current := threads[current].(waitingOn := Some(i))];
        Block();
      } else {
        semas := semas[i := m.(value := m.value - 1)];
        threads := threads[current := threads[current].(waitingOn := None)];
      }
    }

    method TryDown(i: SemaId) returns (success: bool)
      requires Valid() && Enabled(Abs(), TryTake(i))
      modifies this
      ensures Valid() && Abs() == Step(old(Abs()), TryTake(i))
      ensures success <==> old(semas[i].value) > 0
    {
      StepInv(Abs(), TryTake(i));
      var m := semas[i];
      success := m.value > 0;
      if success {
        semas := semas[i := m.(value := m.value - 1)];
      }
    }

    method Up(i: SemaId)
      requires Valid() && Enabled(Abs(), Raise(i))
      modifies this
      ensures Valid() && Abs() == Step(old(Abs()), Raise(i))
    {
      StepInv(Abs(), Raise(i));
      UpInv(Abs(), i);
      var m := semas[i];
      if m.waiters != [] {
        Unblock(m.waiters[0]);
        semas := semas[i := m.(waiters := m.waiters[1..], value := m.value + 1)];
      } else {
        semas := semas[i := m.(value := m.value + 1)];
      }
    }

    // thread_tick() and, when the time slice is over, the yield on return from the interrupt.
    method TimerTick()
      requires Valid() && Enabled(Abs(), Action.Tick)
      modifies this
      ensures Valid() && Abs() == Step(old(Abs()), Action.Tick)
    {
      StepInv(Abs(), Action.Tick);
      TickInv(Abs());
      ticks := ticks + 1;
      if ticks >= TIME_SLICE {
        if idle != Some(current) {
          ready := ready + [current];
        }
        threads := threads[current := threads[current].(status := Ready)];
        Schedule();
      }
    }
  }
}
