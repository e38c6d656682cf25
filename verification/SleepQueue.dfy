// timer_sleep() and timer_interrupt() (projects1-3/src/devices/timer.c): threads put themselves on a
// list ordered by wake-up time, and the interrupt handler wakes from its front and stops at the first
// thread that is not due.
module SleepQueue {
  type Tid = nat

  const MAX64: int := 0x7fff_ffff_ffff_ffff

  // int64_t addition of two in-range operands.
  function Wrap64(x: int): int {
    if x > 0x7fff_ffff_ffff_ffff then x - 0x1_0000_0000_0000_0000 else x
  }

  // timer_sleep() works in two atomic parts: the wake-up time is computed with interrupts on (Asked),
  // the thread goes on the list with interrupts off (Asleep).
  datatype Stage = Awake | Asked | Asleep

  // `at`, `span` and `arrival` are history: the tick and length of the latest request, and its place in
  // the order in which threads went on the list.
  datatype Thread = Thread(stage: Stage, wake: int, at: int, span: int, arrival: nat)

  datatype State = State(ticks: int, threads: seq<Thread>, sleeping: seq<Tid>, arrivals: nat)

  datatype Action = Ask(t: Tid, span: int) | Enqueue(t: Tid) | Interrupt

  // ---- Steps ----

  // The place where list_insert_ordered() puts a thread: before the first that wakes later.
  function InsertPoint(threads: seq<Thread>, queue: seq<Tid>, wake: int, i: nat): (p: nat)
    requires i <= |queue| && Listed(threads, queue)
    ensures i <= p <= |queue|
    ensures forall k | i <= k < p :: threads[queue[k]].wake <= wake
    ensures p < |queue| ==> wake < threads[queue[p]].wake
    decreases |queue| - i
  {
    if i == |queue| || wake < threads[queue[i]].wake then i else InsertPoint(threads, queue, wake, i + 1)
  }

  // How many threads the interrupt handler takes off the front of the list.
  function Due(threads: seq<Thread>, queue: seq<Tid>, now: int, i: nat): (k: nat)
    requires i <= |queue| && Listed(threads, queue)
    ensures i <= k <= |queue|
    ensures forall j | i <= j < k :: threads[queue[j]].wake <= now
    ensures k < |queue| ==> now < threads[queue[k]].wake
    decreases |queue| - i
  {
    if i == |queue| || now < threads[queue[i]].wake then i else Due(threads, queue, now, i + 1)
  }

  // Every thread of `woken` made awake, nothing else changed.
  function Wakened(threads: seq<Thread>, woken: seq<Tid>): (r: seq<Thread>)
    ensures |r| == |threads|
  {
    seq(|threads|, t requires 0 <= t < |threads| => if t in woken then threads[t].(stage := Awake) else threads[t])
  }

  predicate Enabled(s: State, a: Action) {
    match a
    case Ask(t, n) => t < |s.threads| && s.threads[t].stage == Awake && -MAX64 - 1 <= n <= MAX64
    case Enqueue(t) => t < |s.threads| && s.threads[t].stage == Asked
    case Interrupt => s.ticks < MAX64
  }

  function Step(s: State, a: Action): State
    requires Inv(s) && Enabled(s, a)
  {
    match a
    case Ask(t, n) =>
      if n <= 0 then s
      else s.(threads := s.threads[t := Thread(Asked, Wrap64(s.ticks + n), s.ticks, n, 0)])
    case Enqueue(t) =>
      var p := InsertPoint(s.threads, s.sleeping, s.threads[t].wake, 0);
      s.(sleeping := s.sleeping[..p] + [t] + s.sleeping[p..],
         threads := s.threads[t := s.threads[t].(stage := Asleep, arrival := s.arrivals)],
         arrivals := s.arrivals + 1)
    case Interrupt =>
      var k := Due(s.threads, s.sleeping, s.ticks + 1, 0);
      s.(ticks := s.ticks + 1, threads := Wakened(s.threads, s.sleeping[..k]), sleeping := s.sleeping[k..])
  }

  // ---- The invariant ----

  // By wake-up time and, among equals, in order of arrival.
  ghost predicate Before(threads: seq<Thread>, t: Tid, u: Tid)
    requires t < |threads| && u < |threads|
  {
    threads[t].wake < threads[u].wake
    || (threads[t].wake == threads[u].wake && threads[t].arrival < threads[u].arrival)
  }

  ghost predicate Ordered(threads: seq<Thread>, queue: seq<Tid>)
    requires Listed(threads, queue)
  {
    forall i, j | 0 <= i < j < |queue| :: Before(threads, queue[i], queue[j])
  }

  // A request in progress, and the wake-up time that was computed for it.
  ghost predicate Requested(s: State, h: Thread) {
    0 <= h.at <= s.ticks && 0 < h.span <= MAX64 && h.wake == Wrap64(h.at + h.span)
    && (h.stage == Asleep ==> h.arrival < s.arrivals)
  }

  ghost predicate Listed(threads: seq<Thread>, queue: seq<Tid>) {
    forall k | 0 <= k < |queue| :: queue[k] < |threads|
  }

  ghost predicate Members(threads: seq<Thread>, queue: seq<Tid>) {
    forall t | 0 <= t < |threads| :: threads[t].stage == Asleep <==> t in queue
  }

  ghost predicate AllRequested(s: State) {
    forall t | 0 <= t < |s.threads| && s.threads[t].stage != Awake :: Requested(s, s.threads[t])
  }

  ghost predicate Inv(s: State) {
    && 0 <= s.ticks <= MAX64
    && Listed(s.threads, s.sleeping)
    && Ordered(s.threads, s.sleeping)
    && Members(s.threads, s.sleeping)
    && AllRequested(s)
  }

  function Init(n: nat): (s: State)
    ensures Inv(s)
  {
    State(0, seq(n, _ => Thread(Awake, 0, 0, 0, 0)), [], 0)
  }

  // Insertion by wake-up time with the latest arrival number keeps the order.
  lemma InsertedOrdered(threads: seq<Thread>, q: seq<Tid>, t: Tid, p: nat)
    requires Listed(threads, q) && Ordered(threads, q) && t < |threads| && p <= |q|
    requires forall k | 0 <= k < p :: threads[q[k]].wake <= threads[t].wake
    requires forall k | 0 <= k < |q| :: threads[q[k]].arrival < threads[t].arrival
    requires p < |q| ==> threads[t].wake < threads[q[p]].wake
    ensures var r := q[..p] + [t] + q[p..]; Listed(threads, r) && Ordered(threads, r)
  {
    var r := q[..p] + [t] + q[p..];
    forall i, j | 0 <= i < j < |r| ensures Before(threads, r[i], r[j]) {
      var a, b := if i < p then i else i - 1, if j < p then j else j - 1;
      assert i != p ==> r[i] == q[a];
      assert j != p ==> r[j] == q[b];
      assert p < j ==> b == p || Before(threads, q[p], q[b]);
    }
  }

  // The order depends only on the wake-up times and arrivals of the threads on the list.
  lemma OrderedFrame(threads: seq<Thread>, other: seq<Thread>, q: seq<Tid>)
    requires Listed(threads, q) && Ordered(threads, q) && |other| == |threads|
    requires forall k | 0 <= k < |q| ::
               other[q[k]].wake == threads[q[k]].wake && other[q[k]].arrival == threads[q[k]].arrival
    ensures Ordered(other, q)
  {
    forall i, j | 0 <= i < j < |q| ensures Before(other, q[i], q[j]) {
      assert Before(threads, q[i], q[j]);
    }
  }

  lemma TailOrdered(threads: seq<Thread>, q: seq<Tid>, k: nat)
    requires Listed(threads, q) && Ordered(threads, q) && k <= |q|
    ensures Listed(threads, q[k..]) && Ordered(threads, q[k..])
  {
    forall i, j | 0 <= i < j < |q| - k ensures Before(threads, q[k..][i], q[k..][j]) {
      assert Before(threads, q[k + i], q[k + j]);
    }
  }

  lemma EnqueueOrdered(s: State, t: Tid)
    requires Inv(s) && Enabled(s, Enqueue(t))
    ensures var r := Step(s, Enqueue(t)); Listed(r.threads, r.sleeping) && Ordered(r.threads, r.sleeping)
  {
    hide Ordered;
    var r, p := Step(s, Enqueue(t)), InsertPoint(s.threads, s.sleeping, s.threads[t].wake, 0);
    var q := s.sleeping;
    forall k | 0 <= k < |q| ensures r.threads[q[k]] == s.threads[q[k]] && s.threads[q[k]].arrival < s.arrivals {
      assert q[k] in q;
      assert Requested(s, s.threads[q[k]]);
    }
    OrderedFrame(s.threads, r.threads, q);
    InsertedOrdered(r.threads, q, t, p);
  }

  // Stopping at the first thread that is not due misses nobody, because the list is ordered.
  lemma DueIsPrefix(threads: seq<Thread>, q: seq<Tid>, now: int, j: nat)
    requires Listed(threads, q) && Ordered(threads, q) && j < |q|
    ensures threads[q[j]].wake <= now <==> j < Due(threads, q, now, 0)
  {
    hide Due;
    var k := Due(threads, q, now, 0);
    assert k < j ==> Before(threads, q[k], q[j]);
  }

  lemma InHalves(q: seq<Tid>, k: nat, i: nat)
    requires i < |q| && k <= |q| && forall a, b | 0 <= a < b < |q| :: q[a] != q[b]
    ensures q[i] in q[..k] <==> i < k
    ensures q[i] in q[k..] <==> k <= i
  {
    assert i < k ==> q[..k][i] == q[i];
    assert k <= i ==> q[k..][i - k] == q[i];
  }

  lemma OrderedDistinct(threads: seq<Thread>, q: seq<Tid>)
    requires Listed(threads, q) && Ordered(threads, q)
    ensures forall a, b | 0 <= a < b < |q| :: q[a] != q[b]
  {
    forall a, b | 0 <= a < b < |q| ensures q[a] != q[b] {
      assert Before(threads, q[a], q[b]);
    }
  }

  // The early stop is sound: the interrupt handler wakes exactly the threads that are due.
  lemma WakesExactlyTheDue(s: State, t: Tid)
    requires Inv(s) && Enabled(s, Interrupt) && t in s.sleeping
    ensures var r := Step(s, Interrupt);
            && t < |s.threads| == |r.threads|
            && (t in r.sleeping <==> s.threads[t].wake > r.ticks)
            && (r.threads[t].stage == Awake <==> s.threads[t].wake <= r.ticks)
  {
    hide Due, Ordered, AllRequested, Members, Wakened, Listed;
    var q := s.sleeping;
    var i: nat :| i < |q| && q[i] == t;
    var k := Due(s.threads, q, s.ticks + 1, 0);
    SleeperListed(s, i);
    OrderedDistinct(s.threads, q);
    DueIsPrefix(s.threads, q, s.ticks + 1, i);
    InHalves(q, k, i);
    WakenedStage(s.threads, q[..k], t);
  }

  lemma SleeperListed(s: State, i: nat)
    requires Inv(s) && i < |s.sleeping|
    ensures s.sleeping[i] < |s.threads| && s.threads[s.sleeping[i]].stage == Asleep
  {
    hide Ordered, AllRequested;
    assert s.sleeping[i] in s.sleeping;
  }

  lemma WakenedStage(threads: seq<Thread>, woken: seq<Tid>, t: Tid)
    requires t < |threads|
    ensures Wakened(threads, woken)[t].stage == if t in woken then Awake else threads[t].stage
  {}

  lemma InterruptInv(s: State)
    requires Inv(s) && Enabled(s, Interrupt)
    ensures Inv(Step(s, Interrupt))
  {
    hide Ordered, Due, Members, Requested;
    var r, k := Step(s, Interrupt), Due(s.threads, s.sleeping, s.ticks + 1, 0);
    TailOrdered(s.threads, s.sleeping, k);
    OrderedFrame(s.threads, r.threads, s.sleeping[k..]);
    InterruptMembers(s);
    forall t | 0 <= t < |s.threads| && r.threads[t].stage != Awake ensures Requested(r, r.threads[t]) {
      assert Requested(s, s.threads[t]);
      RequestedLater(s, r, s.threads[t]);
    }
  }

  lemma RequestedLater(s: State, r: State, h: Thread)
    requires Requested(s, h) && s.ticks <= r.ticks && s.arrivals <= r.arrivals
    ensures Requested(r, h)
  {}

  lemma InterruptMembers(s: State)
    requires Inv(s) && Enabled(s, Interrupt)
    ensures var r := Step(s, Interrupt); Members(r.threads, r.sleeping)
  {
    hide Ordered, Due, AllRequested, Listed;
    var r, k := Step(s, Interrupt), Due(s.threads, s.sleeping, s.ticks + 1, 0);
    forall t | 0 <= t < |s.threads| ensures r.threads[t].stage == Asleep <==> t in r.sleeping {
      assert t in r.sleeping ==> t in s.sleeping;
      if t in s.sleeping { WakesExactlyTheDue(s, t); }
    }
  }

  lemma InsertedMembers(q: seq<Tid>, p: nat, t: Tid)
    requires p <= |q|
    ensures forall u :: u in q[..p] + [t] + q[p..] <==> u in q || u == t
  {
    assert q == q[..p] + q[p..];
  }

  lemma EnqueueMembers(s: State, t: Tid)
    requires Inv(s) && Enabled(s, Enqueue(t))
    ensures var r := Step(s, Enqueue(t)); Members(r.threads, r.sleeping)
  {
    hide Ordered, InsertPoint, AllRequested;
    InsertedMembers(s.sleeping, InsertPoint(s.threads, s.sleeping, s.threads[t].wake, 0), t);
  }

  lemma AskInv(s: State, t: Tid, n: int)
    requires Inv(s) && Enabled(s, Ask(t, n))
    ensures Inv(Step(s, Ask(t, n)))
  {
    hide Ordered;
    forall k | 0 <= k < |s.sleeping| ensures s.sleeping[k] != t {
      assert s.sleeping[k] in s.sleeping;
    }
    OrderedFrame(s.threads, Step(s, Ask(t, n)).threads, s.sleeping);
  }

  lemma StepInv(s: State, a: Action)
    requires Inv(s) && Enabled(s, a)
    ensures Inv(Step(s, a))
  {
    hide Ordered, InsertPoint, Wakened, Due, Members;
    match a
    case Ask(t, n) => AskInv(s, t, n);
    case Enqueue(t) =>
      EnqueueOrdered(s, t);
      EnqueueMembers(s, t);
    case Interrupt => InterruptInv(s);
  }

  // ---- Runs ----

  ghost predicate AllEnabled(s: State, run: seq<Action>)
    requires Inv(s)
    decreases |run|
  {
    run != [] ==> Enabled(s, run[0]) && (StepInv(s, run[0]); AllEnabled(Step(s, run[0]), run[1..]))
  }

  ghost function After(s: State, run: seq<Action>): (r: State)
    requires Inv(s) && AllEnabled(s, run)
    ensures Inv(r)
    decreases |run|
  {
    if run == [] then s else StepInv(s, run[0]); After(Step(s, run[0]), run[1..])
  }

  function Interrupts(run: seq<Action>): nat {
    if run == [] then 0 else (if run[0].Interrupt? then 1 else 0) + Interrupts(run[1..])
  }

  // The thread is on the list in every state the run passes through.
  ghost predicate AsleepThroughout(s: State, run: seq<Action>, t: Tid)
    requires Inv(s) && AllEnabled(s, run)
    decreases |run|
  {
    t in s.sleeping
    && (run != [] ==> (StepInv(s, run[0]); AsleepThroughout(Step(s, run[0]), run[1..], t)))
  }

  // In every reachable state the list is in order, and names each sleeping thread once.
  lemma {:induction false} AlwaysOrdered(n: nat, run: seq<Action>)
    requires AllEnabled(Init(n), run)
    ensures var r := After(Init(n), run);
            && Listed(r.threads, r.sleeping)
            && (forall i, j | 0 <= i < j < |r.sleeping| ::
                  && r.sleeping[i] != r.sleeping[j]
                  && r.threads[r.sleeping[i]].wake <= r.threads[r.sleeping[j]].wake)
  {
    var r := After(Init(n), run);
    assert Ordered(r.threads, r.sleeping);
    forall i, j | 0 <= i < j < |r.sleeping|
      ensures r.sleeping[i] != r.sleeping[j] && r.threads[r.sleeping[i]].wake <= r.threads[r.sleeping[j]].wake
    {
      assert Before(r.threads, r.sleeping[i], r.sleeping[j]);
    }
  }

  // A sleeping thread leaves the list only by an interrupt that finds it due.
  lemma StepKeepsSleeper(s: State, a: Action, t: Tid)
    requires Inv(s) && Enabled(s, a) && t in s.sleeping
    ensures t in Step(s, a).sleeping <==> a.Interrupt? ==> s.threads[t].wake > s.ticks + 1
    ensures Step(s, a).threads[t].wake == s.threads[t].wake
    ensures Step(s, a).ticks == s.ticks + if a.Interrupt? then 1 else 0
  {
    match a
    case Ask(u, n) =>
      assert s.threads[t].stage == Asleep;
    case Enqueue(u) =>
      assert s.threads[t].stage == Asleep;
      InsertedMembers(s.sleeping, InsertPoint(s.threads, s.sleeping, s.threads[u].wake, 0), u);
    case Interrupt => WakesExactlyTheDue(s, t);
  }

  // A thread sleeps exactly until the first interrupt at or after its wake-up time: over every run, it
  // is still on the list if and only if no such interrupt has happened.
  lemma {:induction false} SleepsExactlyUntilDue(s: State, run: seq<Action>, t: Tid)
    requires Inv(s) && AllEnabled(s, run) && t in s.sleeping
    ensures AsleepThroughout(s, run, t)
       <==> Interrupts(run) == 0 || s.ticks + Interrupts(run) < s.threads[t].wake
    decreases |run|
  {
    hide Inv, Step, Enabled, Wrap64;
    if run != [] {
      StepInv(s, run[0]);
      assert Enabled(s, run[0]);
      StepKeepsSleeper(s, run[0], t);
      var r := Step(s, run[0]);
      if t in r.sleeping {
        SleepsExactlyUntilDue(r, run[1..], t);
      }
    }
  }

  // No thread is woken early, exactly when the wake-up time did not overflow.
  lemma WokenEarlyIffOverflow(s: State, t: Tid)
    requires Inv(s) && Enabled(s, Interrupt) && t in s.sleeping
    requires t !in Step(s, Interrupt).sleeping
    ensures var h, now := s.threads[t], Step(s, Interrupt).ticks;
            now - h.at >= h.span <==> h.at + h.span <= MAX64
  {
    WakesExactlyTheDue(s, t);
    assert Requested(s, s.threads[t]);
  }

  // A thread that overflows is woken by the very next interrupt.
  lemma OverflowWakesAtOnce(s: State, t: Tid)
    requires Inv(s) && Enabled(s, Interrupt) && t in s.sleeping
    requires s.threads[t].at + s.threads[t].span > MAX64
    ensures t !in Step(s, Interrupt).sleeping
  {
    WakesExactlyTheDue(s, t);
    assert Requested(s, s.threads[t]);
  }

  // It can happen: one tick after the start a thread asks for the longest sleep there is, and the next
  // interrupt wakes it.
  lemma OverflowExample()
    ensures var run := [Interrupt, Ask(0, MAX64), Enqueue(0)];
            && AllEnabled(Init(1), run)
            && var s := After(Init(1), run);
               && 0 in s.sleeping && 0 < |s.threads| && Enabled(s, Interrupt)
               && 0 !in Step(s, Interrupt).sleeping
               && Step(s, Interrupt).ticks - s.threads[0].at == 1 < s.threads[0].span
  {
    hide Inv, Wakened, InsertPoint;
    var s0 := Init(1);
    StepInv(s0, Interrupt);
    var s1 := Step(s0, Interrupt);
    assert s1.ticks == 1 && |s1.threads| == 1 && s1.threads[0].stage == Awake by { NobodyWoken(s0); }
    StepInv(s1, Ask(0, MAX64));
    var s2 := Step(s1, Ask(0, MAX64));
    StepInv(s2, Enqueue(0));
    EnqueueFacts(s2, 0);
    var s := Step(s2, Enqueue(0));
    RunOne(s2, Enqueue(0), []);
    RunOne(s1, Ask(0, MAX64), [Enqueue(0)] + []);
    RunOne(s0, Interrupt, [Ask(0, MAX64)] + ([Enqueue(0)] + []));
    assert [Interrupt] + ([Ask(0, MAX64)] + ([Enqueue(0)] + [])) == [Interrupt, Ask(0, MAX64), Enqueue(0)];
    assert After(s, []) == s;
    OverflowWakesAtOnce(s, 0);
  }

  // A run, unfolded by its first step.
  lemma RunOne(s: State, a: Action, rest: seq<Action>)
    requires Inv(s) && Enabled(s, a)
    requires (StepInv(s, a); AllEnabled(Step(s, a), rest))
    ensures AllEnabled(s, [a] + rest)
    ensures (StepInv(s, a); After(s, [a] + rest) == After(Step(s, a), rest))
  {
    hide Inv, Step, Enabled;
    assert ([a] + rest)[1..] == rest;
  }

  lemma NobodyWoken(s: State)
    requires Inv(s) && Enabled(s, Interrupt) && s.sleeping == []
    ensures Step(s, Interrupt) == s.(ticks := s.ticks + 1)
  {
    WakenedNone(s.threads);
  }

  // A whole call of timer_sleep(n), with any other activity between and after its two halves: it sleeps until the
  // first later interrupt at or after start + n, or until the next one if that sum overflows.
  lemma SleepCall(s: State, t: Tid, n: int, between: seq<Action>, after: seq<Action>)
    requires Inv(s) && Enabled(s, Ask(t, n)) && 0 < n
    requires (StepInv(s, Ask(t, n)); AllEnabled(Step(s, Ask(t, n)), between))
    requires forall i | 0 <= i < |between| :: between[i] != Enqueue(t)
    requires var m := (StepInv(s, Ask(t, n)); After(Step(s, Ask(t, n)), between));
             Enabled(m, Enqueue(t)) && (StepInv(m, Enqueue(t)); AllEnabled(Step(m, Enqueue(t)), after))
    ensures var m := (StepInv(s, Ask(t, n)); After(Step(s, Ask(t, n)), between));
            var e := (StepInv(m, Enqueue(t)); Step(m, Enqueue(t)));
            AsleepThroughout(e, after, t)
            <==> Interrupts(after) == 0 || (s.ticks + n <= MAX64 && e.ticks + Interrupts(after) < s.ticks + n)
  {
    StepInv(s, Ask(t, n));
    var a := Step(s, Ask(t, n));
    AskedStays(a, between, t);
    var m := After(a, between);
    StepInv(m, Enqueue(t));
    var e := Step(m, Enqueue(t));
    EnqueueFacts(m, t);
    SleepsExactlyUntilDue(e, after, t);
    NeverNegative(e);
  }

  lemma NeverNegative(s: State)
    requires Inv(s)
    ensures 0 <= s.ticks <= MAX64
  {}

  lemma EnqueueFacts(s: State, t: Tid)
    requires Inv(s) && Enabled(s, Enqueue(t))
    ensures t in Step(s, Enqueue(t)).sleeping
    ensures t < |Step(s, Enqueue(t)).threads| && Step(s, Enqueue(t)).threads[t].wake == s.threads[t].wake
  {}

  lemma {:induction false} AskedStays(s: State, run: seq<Action>, t: Tid)
    requires Inv(s) && AllEnabled(s, run) && t < |s.threads| && s.threads[t].stage == Asked
    requires forall i | 0 <= i < |run| :: run[i] != Enqueue(t)
    ensures var r := After(s, run); t < |r.threads| && r.threads[t] == s.threads[t]
    decreases |run|
  {
    if run != [] {
      StepInv(s, run[0]);
      StepKeepsAsked(s, run[0], t);
      AskedStays(Step(s, run[0]), run[1..], t);
    }
  }

  lemma StepKeepsAsked(s: State, a: Action, t: Tid)
    requires Inv(s) && Enabled(s, a) && t < |s.threads| && s.threads[t].stage == Asked && a != Enqueue(t)
    ensures |Step(s, a).threads| == |s.threads| && Step(s, a).threads[t] == s.threads[t]
  {
    if a.Interrupt? {
      assert t !in s.sleeping;
    }
  }

  // Among threads woken by one interrupt, the handler goes by wake-up time and then arrival; a thread
  // that went on the list earlier with an equal or earlier time is never left behind.
  lemma WakesInOrder(s: State, t: Tid, u: Tid)
    requires Inv(s) && Enabled(s, Interrupt) && t in s.sleeping && u in s.sleeping
    requires Before(s.threads, t, u)
    ensures exists i, j :: 0 <= i < j < |s.sleeping| && s.sleeping[i] == t && s.sleeping[j] == u
    ensures u !in Step(s, Interrupt).sleeping ==> t !in Step(s, Interrupt).sleeping
  {
    WakesExactlyTheDue(s, t);
    WakesExactlyTheDue(s, u);
    var i :| 0 <= i < |s.sleeping| && s.sleeping[i] == t;
    var j :| 0 <= j < |s.sleeping| && s.sleeping[j] == u;
    assert !Before(s.threads, u, t) && t != u;
    assert j >= i;
  }

  // ---- The handler and timer_sleep() over the thread structures ----

  class Timer {
    var ticks: int
    var threads: seq<Thread>
    var sleeping: seq<Tid>
    var arrivals: nat

    ghost function Abs(): State
      reads this
    {
      State(ticks, threads, sleeping, arrivals)
    }

    ghost predicate Valid()
      reads this
    {
      Inv(Abs())
    }

    constructor (n: nat)
      ensures Valid() && Abs() == Init(n)
    {
      ticks, threads, sleeping, arrivals := 0, seq(n, _ => Thread(Awake, 0, 0, 0, 0)), [], 0;
    }

    // timer_sleep() up to the computation of wake_time.
    method Ask(t: Tid, n: int)
      requires Valid() && Enabled(Abs(), Action.Ask(t, n))
      modifies this
      ensures Valid() && Abs() == Step(old(Abs()), Action.Ask(t, n))
    {
      StepInv(Abs(), Action.Ask(t, n));
      if n <= 0 {
        return;
      }
      threads := threads[t := Thread(Asked, Wrap64(ticks + n), ticks, n, 0)];
    }

    // The rest of timer_sleep(): list_insert_ordered() and thread_block().
    method Enqueue(t: Tid)
      requires Valid() && Enabled(Abs(), Action.Enqueue(t))
      modifies this
      ensures Valid() && Abs() == Step(old(Abs()), Action.Enqueue(t))
    {
      StepInv(Abs(), Action.Enqueue(t));
      var e := 0;
      while e < |sleeping|
        invariant e <= |sleeping|
        invariant InsertPoint(threads, sleeping, threads[t].wake, 0)
               == InsertPoint(threads, sleeping, threads[t].wake, e)
      {
        if threads[t].wake < threads[sleeping[e]].wake {
          break;
        }
        e := e + 1;
      }
      sleeping := sleeping[..e] + [t] + sleeping[e..];
      threads := threads[t := threads[t].(stage := Asleep, arrival := arrivals)];
      arrivals := arrivals + 1;
    }

    // timer_interrupt(): the due threads wake, in list order, and no sleeper that is due remains.
    method Interrupt() returns (woken: seq<Tid>)
      requires Valid() && Enabled(Abs(), Action.Interrupt)
      modifies `ticks, `threads, `sleeping
      ensures Valid() && Abs() == Step(old(Abs()), Action.Interrupt)
      ensures old(sleeping) == woken + sleeping
      ensures forall k | 0 <= k < |sleeping| :: sleeping[k] < |threads| && threads[sleeping[k]].wake > ticks
      ensures forall k | 0 <= k < |woken| :: woken[k] < |threads| && threads[woken[k]].wake <= ticks
                                          && threads[woken[k]].stage == Awake
    {
      hide Inv, Step, Progress;
      ghost var s := Abs();
      StepInv(s, Action.Interrupt);
      ProgressStarts(s);
      ticks := ticks + 1;
      woken := [];
      while |sleeping| > 0
        invariant Progress(s, ticks, woken, sleeping, threads)
      {
        ProgressTurn(s, ticks, woken, sleeping, threads);
        var t := sleeping[0];
        if threads[t].wake <= ticks {
          sleeping := sleeping[1..];
          woken := woken + [t];
          threads := threads[t := threads[t].(stage := Awake)];
        } else {
          break;
        }
      }
      ProgressEnds(s, ticks, woken, sleeping, threads);
    }
  }

  // Between two turns of the interrupt handler's loop: `woken` has been taken off the list, `rest` is left.
  ghost predicate Progress(s: State, now: int, woken: seq<Tid>, rest: seq<Tid>, threads: seq<Thread>) {
    && Inv(s) && now == s.ticks + 1
    && s.sleeping == woken + rest
    && threads == Wakened(s.threads, woken)
    && Due(s.threads, s.sleeping, now, 0) == Due(s.threads, s.sleeping, now, |woken|)
  }

  lemma ProgressStarts(s: State)
    requires Inv(s)
    ensures Progress(s, s.ticks + 1, [], s.sleeping, s.threads)
  {
    hide Ordered, Members, AllRequested;
    WakenedNone(s.threads);
    assert s.sleeping == [] + s.sleeping;
  }

  lemma ProgressTurn(s: State, now: int, woken: seq<Tid>, rest: seq<Tid>, threads: seq<Thread>)
    requires Progress(s, now, woken, rest, threads) && rest != []
    ensures rest[0] < |threads|
    ensures threads[rest[0]].wake <= now ==>
              Progress(s, now, woken + [rest[0]], rest[1..], threads[rest[0] := threads[rest[0]].(stage := Awake)])
  {
    hide Ordered, Members, AllRequested, Wakened, Due;
    assert s.sleeping[|woken|] == rest[0];
    WakenedTurn(s.threads, woken, rest);
    DueTurn(s.threads, s.sleeping, now, |woken|);
  }

  lemma ProgressEnds(s: State, now: int, woken: seq<Tid>, rest: seq<Tid>, threads: seq<Thread>)
    requires Progress(s, now, woken, rest, threads) && Enabled(s, Interrupt)
    requires rest == [] || (rest[0] < |threads| && now < threads[rest[0]].wake)
    ensures State(now, threads, rest, s.arrivals) == Step(s, Interrupt)
    ensures s.sleeping == woken + rest
    ensures forall k | 0 <= k < |rest| :: rest[k] < |threads| && threads[rest[k]].wake > now
    ensures forall k | 0 <= k < |woken| ::
              woken[k] < |threads| && threads[woken[k]].wake <= now && threads[woken[k]].stage == Awake
  {
    hide Ordered, Members, AllRequested, Wakened, Due;
    if rest != [] {
      assert s.sleeping[|woken|] == rest[0];
      WakenedTurn(s.threads, woken, rest);
    }
    DueTurn(s.threads, s.sleeping, now, |woken|);
    InterruptSplit(s, woken, rest);
  }

  lemma WakenedNone(threads: seq<Thread>)
    ensures Wakened(threads, []) == threads
  {}

  lemma WakenedTurn(threads: seq<Thread>, woken: seq<Tid>, q: seq<Tid>)
    requires q != [] && q[0] < |threads|
    ensures woken + q == woken + [q[0]] + q[1..]
    ensures Wakened(threads, woken)[q[0]].wake == threads[q[0]].wake
    ensures Wakened(threads, woken + [q[0]])
         == Wakened(threads, woken)[q[0] := Wakened(threads, woken)[q[0]].(stage := Awake)]
  {}

  lemma DueTurn(threads: seq<Thread>, q: seq<Tid>, now: int, i: nat)
    requires Listed(threads, q) && i <= |q|
    ensures i == |q| ==> Due(threads, q, now, i) == i
    ensures i < |q| ==> Due(threads, q, now, i) == if threads[q[i]].wake <= now then Due(threads, q, now, i + 1) else i
  {}

  // What an interrupt does, from the two halves into which it cuts the list.
  lemma InterruptSplit(s: State, woken: seq<Tid>, rest: seq<Tid>)
    requires Inv(s) && Enabled(s, Interrupt) && s.sleeping == woken + rest
    requires Due(s.threads, s.sleeping, s.ticks + 1, 0) == |woken|
    ensures Step(s, Interrupt) == State(s.ticks + 1, Wakened(s.threads, woken), rest, s.arrivals)
    ensures Listed(s.threads, woken) && Listed(s.threads, rest)
    ensures forall k | 0 <= k < |rest| :: Wakened(s.threads, woken)[rest[k]].wake > s.ticks + 1
    ensures forall k | 0 <= k < |woken| ::
              var h := Wakened(s.threads, woken)[woken[k]]; h.wake <= s.ticks + 1 && h.stage == Awake
  {
    hide Due;
    assert s.sleeping[..|woken|] == woken && s.sleeping[|woken|..] == rest;
    forall k | 0 <= k < |rest| ensures rest[k] < |s.threads| && s.threads[rest[k]].wake > s.ticks + 1 {
      assert rest[k] == s.sleeping[|woken| + k] && rest[k] in s.sleeping && rest[k] in rest;
      WakesExactlyTheDue(s, rest[k]);
    }
    assert forall k | 0 <= k < |woken| :: woken[k] == s.sleeping[k];
  }
}
