// The same lock as an object whose fields the threads update: each method is one atomic section of
// synch.c, run by thread t, and is proved to be a step of the protocol.
module RwLockMachine {
  import opened Common
  import opened RwLock
  import opened RwLockProof

  lemma QueueFirst(s: State, r: Role)
    requires |s.at| == |s.waiter| && Inv(s)
    ensures r == Reader && s.read != [] ==> s.read[0] < |s.at|
    ensures r == Writer && s.write != [] ==> s.write[0] < |s.at|
  {
    FirstWaiter(s, r);
  }

  class Machine {
    var at: seq<Place>
    var holder: Option<Tid>
    var value: nat
    var waiters: seq<Tid>
    var read: seq<Tid>
    var write: seq<Tid>
    var waiter: seq<Sema>
    var AR: int
    var WR: int
    var AW: int
    var WW: int

    ghost function Abs(): State
      reads this
    {
      State(at, Lock(holder, Sema(value, waiters)), read, write, waiter, AR, WR, AW, WW)
    }

    ghost predicate Valid()
      reads this
    {
      |at| == |waiter| && Inv(Abs())
    }

    // rw_lock_init(), with n threads outside.
    constructor (n: nat)
      ensures Valid() && Abs() == Init(n)
    {
      at, holder, value, waiters := seq(n, _ => Outside), None, 1, [];
      read, write, waiter := [], [], seq(n, _ => Sema(0, []));
      AR, WR, AW, WW := 0, 0, 0, 0;
      new;
      InitInv(n);
    }

    method StartAcquire(t: Tid, role: Role)
      requires Valid() && t < |at| && at[t].Outside?
      modifies this
      ensures Valid() && Abs() == Step(old(Abs()), Start(t, role))
    {
      hide Inv;
      StepInv(Abs(), Start(t, role));
      at := at[t := Downing(Acquire(role))];
    }

    method StartRelease(t: Tid)
      requires Valid() && t < |at| && at[t].Holding?
      modifies this
      ensures Valid() && Abs() == Step(old(Abs()), Go(t))
    {
      hide Inv;
      StepInv(Abs(), Go(t));
      at := at[t := Downing(Release(at[t].role))];
    }

    // One turn of the loop of sema_down() on the guard's semaphore.
    method GuardDown(t: Tid)
      requires Valid() && t < |at| && at[t].Downing?
      modifies this
      ensures Valid() && Abs() == Step(old(Abs()), Go(t))
    {
      hide Inv;
      StepInv(Abs(), Go(t));
      var goal := at[t].goal;
      if value == 0 {
        waiters := waiters + [t];
        at := at[t := GuardBlocked(goal)];
      } else {
        value := value - 1;
        at := at[t := Owning(goal)];
      }
    }

    // lock_acquire() after sema_down().
    method TakeHolder(t: Tid)
      requires Valid() && t < |at| && at[t].Owning?
      modifies this
      ensures Valid() && Abs() == Step(old(Abs()), Go(t))
    {
      hide Inv;
      StepInv(Abs(), Go(t));
      holder := Some(t);
      at := at[t := Inside(at[t].goal)];
    }

    // The reader's loop in rw_lock_acquire(), first test or test after cond_wait(): enters, or goes to
    // wait.
    method ReaderSection(t: Tid)
      requires Valid() && t < |at| && (at[t] == Inside(Acquire(Reader)) || at[t] == Inside(Rewait(Reader)))
      modifies this
      ensures Valid() && Abs() == Step(old(Abs()), Go(t))
    {
      hide Inv, Signal, Leave;
      StepInv(Abs(), Go(t));
      if at[t].goal.Rewait? {
        WR := WR - 1;
      }
      if AW + WW > 0 {
        WR := WR + 1;
        waiter := waiter[t := Sema(0, [])];
        read := read + [t];
        at := at[t := Unholding(BeWaiting(Reader))];
      } else {
        AR := AR + 1;
        at := at[t := Unholding(BeHolding(Reader))];
      }
    }

    // The writer's loop.
    method WriterSection(t: Tid)
      requires Valid() && t < |at| && (at[t] == Inside(Acquire(Writer)) || at[t] == Inside(Rewait(Writer)))
      modifies this
      ensures Valid() && Abs() == Step(old(Abs()), Go(t))
    {
      hide Inv, Signal, Leave;
      StepInv(Abs(), Go(t));
      if at[t].goal.Rewait? {
        WW := WW - 1;
      }
      if AR + AW > 0 {
        WW := WW + 1;
        waiter := waiter[t := Sema(0, [])];
        write := write + [t];
        at := at[t := Unholding(BeWaiting(Writer))];
      } else {
        AW := AW + 1;
        at := at[t := Unholding(BeHolding(Writer))];
      }
    }

    // rw_lock_release() under the guard.
    method ReleaseSection(t: Tid)
      requires Valid() && t < |at| && at[t].Inside? && at[t].goal.Release?
      modifies this
      ensures Valid() && Abs() == Step(old(Abs()), Go(t))
    {
      hide Inv;
      StepInv(Abs(), Go(t));
      if at[t].goal.role == Reader {
        AR := AR - 1;
        at := at[t := if AR == 0 && WW > 0 then Signalling else Unholding(BeOutside)];
      } else {
        AW := AW - 1;
        if WW > 0 {
          at := at[t := Signalling];
        } else if WR > 0 {
          at := at[t := Broadcasting];
        } else {
          at := at[t := Unholding(BeOutside)];
        }
      }
    }

    // sema_up() of thread u's waiter semaphore.
    method WaiterUp(u: Tid)
      requires u < |at| == |waiter|
      modifies `at, `waiter
      ensures at == Wake(old(at), old(waiter[u])) && waiter == old(waiter)[u := Up(old(waiter[u]))]
    {
      var m := waiter[u];
      if m.waiters != [] {
        if m.waiters[0] < |at| {
          at := at[m.waiters[0] := Unblocked(at[m.waiters[0]])];
        }
        waiter := waiter[u := Sema(m.value + 1, m.waiters[1..])];
      } else {
        waiter := waiter[u := Sema(m.value + 1, [])];
      }
    }

    // cond_signal() to a waiting writer.
    method SignalWriter(t: Tid)
      requires Valid() && t < |at| && at[t].Signalling?
      modifies this
      ensures Valid() && Abs() == Step(old(Abs()), Go(t))
    {
      hide Inv, Up, Wake;
      StepInv(Abs(), Go(t));
      QueueFirst(Abs(), Writer);
      if write != [] {
        var u := write[0];
        write := write[1..];
        WaiterUp(u);
      }
      at := at[t := Unholding(BeOutside)];
    }

    // One turn of the loop of cond_broadcast() to the readers.
    method BroadcastTurn(t: Tid)
      requires Valid() && t < |at| && at[t].Broadcasting?
      modifies this
      ensures Valid() && Abs() == Step(old(Abs()), Go(t))
    {
      hide Inv, Up, Wake;
      StepInv(Abs(), Go(t));
      QueueFirst(Abs(), Reader);
      if read != [] {
        var u := read[0];
        read := read[1..];
        WaiterUp(u);
      } else {
        at := at[t := Unholding(BeOutside)];
      }
    }

    // lock_release() before sema_up().
    method ClearHolder(t: Tid)
      requires Valid() && t < |at| && at[t].Unholding?
      modifies this
      ensures Valid() && Abs() == Step(old(Abs()), Go(t))
    {
      hide Inv;
      StepInv(Abs(), Go(t));
      holder := None;
      at := at[t := Upping(at[t].andThen)];
    }

    // sema_up() on the guard's semaphore.
    method GuardUp(t: Tid)
      requires Valid() && t < |at| && at[t].Upping?
      modifies this
      ensures Valid() && Abs() == Step(old(Abs()), Go(t))
    {
      hide Inv, Signal, Section;
      StepInv(Abs(), Go(t));
      var andThen := at[t].andThen;
      if waiters != [] {
        if waiters[0] < |at| {
          at := at[waiters[0] := Unblocked(at[waiters[0]])];
        }
        waiters := waiters[1..];
      }
      value := value + 1;
      at := at[t := After(andThen)];
    }

    // One turn of the loop of sema_down() on the thread's own waiter semaphore, in cond_wait().
    method WaitDown(t: Tid)
      requires Valid() && t < |at| && at[t].Waiting?
      modifies this
      ensures Valid() && Abs() == Step(old(Abs()), Go(t))
    {
      hide Inv;
      StepInv(Abs(), Go(t));
      var role, m := at[t].role, waiter[t];
      if m.value == 0 {
        waiter := waiter[t := Sema(0, m.waiters + [t])];
        at := at[t := WaitBlocked(role)];
      } else {
        waiter := waiter[t := Sema(m.value - 1, m.waiters)];
        at := at[t := Downing(Rewait(role))];
      }
    }
  }
}
