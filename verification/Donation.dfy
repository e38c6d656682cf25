// Priority donation and the priority ready queue of the second kernel.
module Donation {
  import opened Common

  type Tid = nat
  type LockId = nat

  datatype Status = Running | Ready | Blocked

  // ---- The ready queue ----

  // Higher priorities first.
  ghost predicate Sorted(queue: seq<Tid>, prio: seq<int>) {
    && (forall i | 0 <= i < |queue| :: queue[i] < |prio|)
    && forall i, j | 0 <= i < j < |queue| :: prio[queue[i]] >= prio[queue[j]]
  }

  // thread_priority_comparator()
  predicate Before(prio: seq<int>, a: Tid, b: Tid)
    requires a < |prio| && b < |prio|
  {
    prio[a] > prio[b]
  }

  // Where list_insert_ordered() puts t: before the first thread of lower priority.
  function InsertPoint(queue: seq<Tid>, prio: seq<int>, t: Tid): (p: nat)
    requires t < |prio| && forall i | 0 <= i < |queue| :: queue[i] < |prio|
    ensures p <= |queue|
    ensures forall i | 0 <= i < p :: prio[queue[i]] >= prio[t]
    ensures p < |queue| ==> prio[t] > prio[queue[p]]
  {
    if queue == [] || Before(prio, t, queue[0]) then 0 else 1 + InsertPoint(queue[1..], prio, t)
  }

  function Enqueued(queue: seq<Tid>, prio: seq<int>, t: Tid): (q: seq<Tid>)
    requires t < |prio| && forall i | 0 <= i < |queue| :: queue[i] < |prio|
  {
    var p := InsertPoint(queue, prio, t);
    queue[..p] + [t] + queue[p..]
  }

  function Removed(queue: seq<Tid>, t: Tid): seq<Tid> {
    if queue == [] then [] else if queue[0] == t then queue[1..] else [queue[0]] + Removed(queue[1..], t)
  }

  lemma {:induction false} RemovedAt(queue: seq<Tid>, t: Tid) returns (i: nat)
    ensures i <= |queue| && t !in queue[..i]
    ensures i < |queue| ==> queue[i] == t && Removed(queue, t) == queue[..i] + queue[i + 1..]
    ensures i == |queue| ==> Removed(queue, t) == queue
  {
    if queue == [] || queue[0] == t {
      i := 0;
    } else {
      var k := RemovedAt(queue[1..], t);
      i := k + 1;
      assert queue[..i] == [queue[0]] + queue[1..][..k];
      assert k < |queue| - 1 ==> queue[i + 1..] == queue[1..][k + 1..];
    }
  }

  // Taking a thread out of a sorted queue leaves it sorted, whatever happens to that thread's priority.
  lemma RemovedFacts(queue: seq<Tid>, prio: seq<int>, t: Tid, x: int)
    requires Sorted(queue, prio) && Distinct(queue) && t < |prio|
    ensures Sorted(Removed(queue, t), prio[t := x]) && Distinct(Removed(queue, t))
    ensures forall u :: u in Removed(queue, t) <==> u in queue && u != t
  {
    hide Removed;
    var i := RemovedAt(queue, t);
    if i < |queue| {
      assert queue == queue[..i] + [t] + queue[i + 1..];
    }
  }

  lemma InsertedSorted(queue: seq<Tid>, prio: seq<int>, t: Tid, p: nat)
    requires Sorted(queue, prio) && t < |prio| && p <= |queue|
    requires forall i | 0 <= i < p :: prio[queue[i]] >= prio[t]
    requires p < |queue| ==> prio[t] > prio[queue[p]]
    ensures Sorted(queue[..p] + [t] + queue[p..], prio)
  {
    var e := queue[..p] + [t] + queue[p..];
    forall i, j | 0 <= i < j < |e| ensures prio[e[i]] >= prio[e[j]] {
      var a, b := if i < p then i else i - 1, if j < p then j else j - 1;
      assert i != p ==> e[i] == queue[a];
      assert j != p ==> e[j] == queue[b];
    }
  }

  lemma EnqueuedFacts(queue: seq<Tid>, prio: seq<int>, t: Tid)
    requires Sorted(queue, prio) && Distinct(queue) && t < |prio| && t !in queue
    ensures Sorted(Enqueued(queue, prio, t), prio) && Distinct(Enqueued(queue, prio, t))
    ensures forall u :: u in Enqueued(queue, prio, t) <==> u in queue || u == t
  {
    var p := InsertPoint(queue, prio, t);
    InsertedSorted(queue, prio, t, p);
    InsertedDistinct(queue, t, p);
    hide Sorted, Distinct, InsertPoint;
  }

  lemma InsertedDistinct(queue: seq<Tid>, t: Tid, p: nat)
    requires Distinct(queue) && t !in queue && p <= |queue|
    ensures Distinct(queue[..p] + [t] + queue[p..])
    ensures forall u :: u in queue[..p] + [t] + queue[p..] <==> u in queue || u == t
  {
    assert queue == queue[..p] + queue[p..];
  }

  // ---- Donation ----

  // waits[t] is the holder of the lock t waits for, if there is one.
  ghost predicate WellFormed(prio: seq<int>, waits: seq<Option<Tid>>) {
    |prio| == |waits| && forall t | 0 <= t < |waits| && waits[t].Some? :: waits[t].value < |prio|
  }

  // Thread t has no more than the priority of the thread it waits for.
  predicate Inherited(prio: seq<int>, waits: seq<Option<Tid>>, t: Tid)
    requires t < |prio| == |waits|
  {
    waits[t].Some? && waits[t].value < |prio| ==> prio[t] <= prio[waits[t].value]
  }

  ghost predicate Closed(prio: seq<int>, waits: seq<Option<Tid>>) {
    |prio| == |waits| && forall t | 0 <= t < |prio| :: Inherited(prio, waits, t)
  }

  // Every waiter but t has inherited.
  ghost predicate OthersInherit(prio: seq<int>, waits: seq<Option<Tid>>, t: Tid) {
    |prio| == |waits| && forall u | 0 <= u < |prio| && u != t :: Inherited(prio, waits, u)
  }

  // How many threads are below priority p.
  ghost function Below(prio: seq<int>, p: int): nat {
    if prio == [] then 0 else (if prio[0] < p then 1 else 0) + Below(prio[1..], p)
  }

  lemma {:induction false} BelowDrops(prio: seq<int>, t: Tid, p: int)
    requires t < |prio| && prio[t] < p
    ensures Below(prio[t := p], p) < Below(prio, p)
  {
    if t == 0 {
      assert prio[t := p][1..] == prio[1..];
    } else {
      BelowDrops(prio[1..], t - 1, p);
      assert prio[t := p][1..] == prio[1..][t - 1 := p];
    }
  }

  // recurse_donate() on the priorities: the walk up the chain of holders, stopping at the first that is
  // high enough. It ends even if the chain is a ring, because every step lifts one more thread to the
  // priority being donated.
  function Donate(prio: seq<int>, waits: seq<Option<Tid>>, t: Tid): (r: seq<int>)
    requires WellFormed(prio, waits) && t < |prio|
    ensures |r| == |prio|
    decreases Below(prio, prio[t])
  {
    if waits[t].None? then prio else
    var h := waits[t].value;
    if prio[h] < prio[t] then
      BelowDrops(prio, h, prio[t]);
      Donate(prio[h := prio[t]], waits, h)
    else prio
  }

  // The k-th holder up the chain from t.
  function HolderAt(waits: seq<Option<Tid>>, t: Tid, k: nat): Option<Tid> {
    if k == 0 then Some(t)
    else
      var h := HolderAt(waits, t, k - 1);
      if h.Some? && h.value < |waits| then waits[h.value] else None
  }

  // The k-th holder is there, and it and all before it are below priority p.
  ghost predicate LowUpTo(prio: seq<int>, waits: seq<Option<Tid>>, t: Tid, p: int, k: nat) {
    forall j | 0 < j <= k :: IsLow(prio, HolderAt(waits, t, j), p)
  }

  predicate IsLow(prio: seq<int>, h: Option<Tid>, p: int) {
    h.Some? && h.value < |prio| && prio[h.value] < p
  }

  // u is on the chain from t, and no holder up to and including u is as high as t: read off the state before
  // the call.
  ghost predicate OnTheWay(prio: seq<int>, waits: seq<Option<Tid>>, t: Tid, u: Tid)
    requires t < |prio|
  {
    exists k: nat :: k > 0 && HolderAt(waits, t, k) == Some(u) && LowUpTo(prio, waits, t, prio[t], k)
  }

  lemma {:induction false} HolderFrom(waits: seq<Option<Tid>>, t: Tid, k: nat, j: nat)
    requires HolderAt(waits, t, k).Some?
    ensures HolderAt(waits, t, k + j) == HolderAt(waits, HolderAt(waits, t, k).value, j)
  {
    if j > 0 { HolderFrom(waits, t, k, j - 1); }
  }

  // A thread on the way is the first holder, or on the way from it once it has been lifted. On a ring the
  // chain comes back to the first holder; then a shorter way will do.
  lemma {:induction false} OnTheWayShorter(prio: seq<int>, waits: seq<Option<Tid>>, t: Tid, h: Tid, u: Tid, k: nat)
    requires WellFormed(prio, waits) && t < |prio| && waits[t] == Some(h) && prio[h] < prio[t]
    requires k > 0 && HolderAt(waits, t, k) == Some(u) && LowUpTo(prio, waits, t, prio[t], k)
    ensures u == h || OnTheWay(prio[h := prio[t]], waits, h, u)
    decreases k
  {
    var lifted := prio[h := prio[t]];
    assert HolderAt(waits, t, 0) == Some(t) && HolderAt(waits, t, 1) == Some(h);
    if j :| 1 < j <= k && HolderAt(waits, t, j) == Some(h) {
      HolderFrom(waits, t, j, k - j);
      HolderFrom(waits, t, 1, k - j);
      OnTheWayShorter(prio, waits, t, h, u, k - j + 1);
    } else if k > 1 {
      forall i | 0 < i <= k - 1 ensures IsLow(lifted, HolderAt(waits, h, i), lifted[h]) {
        HolderFrom(waits, t, 1, i);
        assert IsLow(prio, HolderAt(waits, t, i + 1), prio[t]);
      }
      HolderFrom(waits, t, 1, k - 1);
      assert LowUpTo(lifted, waits, h, lifted[h], k - 1);
    }
  }

  lemma OnTheWayLonger(prio: seq<int>, waits: seq<Option<Tid>>, t: Tid, h: Tid, u: Tid)
    requires WellFormed(prio, waits) && t < |prio| && waits[t] == Some(h) && prio[h] < prio[t]
    requires u == h || OnTheWay(prio[h := prio[t]], waits, h, u)
    ensures OnTheWay(prio, waits, t, u)
  {
    var lifted := prio[h := prio[t]];
    assert HolderAt(waits, t, 0) == Some(t) && HolderAt(waits, t, 1) == Some(h);
    if u == h {
      assert LowUpTo(prio, waits, t, prio[t], 1);
    } else {
      var k: nat :| k > 0 && HolderAt(waits, h, k) == Some(u) && LowUpTo(lifted, waits, h, lifted[h], k);
      HolderFrom(waits, t, 1, k);
      forall j | 0 < j <= k + 1 ensures IsLow(prio, HolderAt(waits, t, j), prio[t]) {
        if j > 1 {
          HolderFrom(waits, t, 1, j - 1);
          assert IsLow(lifted, HolderAt(waits, h, j - 1), lifted[h]);
        }
      }
      assert LowUpTo(prio, waits, t, prio[t], k + 1);
    }
  }

  // The walk lifts exactly the threads on the way, to the priority being donated.
  lemma {:induction false} DonateLifts(prio: seq<int>, waits: seq<Option<Tid>>, t: Tid, u: Tid)
    requires WellFormed(prio, waits) && t < |prio| && u < |prio|
    ensures Donate(prio, waits, t)[u] == if OnTheWay(prio, waits, t, u) then prio[t] else prio[u]
    decreases Below(prio, prio[t])
  {
    hide LowUpTo;
    assert HolderAt(waits, t, 0) == Some(t);
    if waits[t].Some? && prio[waits[t].value] < prio[t] {
      var h := waits[t].value;
      BelowDrops(prio, h, prio[t]);
      DonateLifts(prio[h := prio[t]], waits, h, u);
      if OnTheWay(prio, waits, t, u) {
        var k: nat :| k > 0 && HolderAt(waits, t, k) == Some(u) && LowUpTo(prio, waits, t, prio[t], k);
        OnTheWayShorter(prio, waits, t, h, u, k);
      }
      if u == h || OnTheWay(prio[h := prio[t]], waits, h, u) {
        OnTheWayLonger(prio, waits, t, h, u);
      }
    } else {
      StopsAtOnce(prio, waits, t, u);
    }
  }

  lemma StopsAtOnce(prio: seq<int>, waits: seq<Option<Tid>>, t: Tid, u: Tid)
    requires WellFormed(prio, waits) && t < |prio|
    requires waits[t].Some? ==> prio[waits[t].value] >= prio[t]
    ensures !OnTheWay(prio, waits, t, u)
  {
    assert HolderAt(waits, t, 0) == Some(t);
    assert !IsLow(prio, HolderAt(waits, t, 1), prio[t]);
  }

  // What thread u's waiting asks of the state before the call, for u to have inherited after it.
  ghost predicate WillInherit(prio: seq<int>, waits: seq<Option<Tid>>, t: Tid, u: Tid)
    requires t < |prio| && u < |waits| == |prio|
  {
    waits[u].Some? && waits[u].value < |prio| ==>
      prio[u] <= if OnTheWay(prio, waits, t, waits[u].value) then prio[t] else prio[waits[u].value]
  }

  // A thread on the way leads on to one on the way, or to one that is as high as t; so does t itself.
  lemma LeadsOn(prio: seq<int>, waits: seq<Option<Tid>>, t: Tid, u: Tid)
    requires WellFormed(prio, waits) && t < |prio| && u < |prio| && waits[u].Some?
    requires u == t || OnTheWay(prio, waits, t, u)
    ensures OnTheWay(prio, waits, t, waits[u].value) || prio[waits[u].value] >= prio[t]
  {
    var v := waits[u].value;
    var k: nat := 0;
    assert HolderAt(waits, t, 0) == Some(t) && LowUpTo(prio, waits, t, prio[t], 0);
    if u != t {
      k :| k > 0 && HolderAt(waits, t, k) == Some(u) && LowUpTo(prio, waits, t, prio[t], k);
    }
    assert HolderAt(waits, t, k + 1) == Some(v);
    if prio[v] < prio[t] {
      assert LowUpTo(prio, waits, t, prio[t], k + 1);
    }
  }

  // The donation restores the closure exactly when the waiters that are not on the way will have inherited:
  // the early stop is sound for those states and no others.
  lemma DonateClosesIff(prio: seq<int>, waits: seq<Option<Tid>>, t: Tid)
    requires WellFormed(prio, waits) && t < |prio|
    ensures Closed(Donate(prio, waits, t), waits)
       <==> forall u | 0 <= u < |prio| && u != t && !OnTheWay(prio, waits, t, u) :: WillInherit(prio, waits, t, u)
  {
    hide OnTheWay, Donate;
    var r := Donate(prio, waits, t);
    forall u: Tid | u < |prio|
      ensures Inherited(r, waits, u) <==> u == t || OnTheWay(prio, waits, t, u) || WillInherit(prio, waits, t, u)
    {
      DonateLifts(prio, waits, t, u);
      DonateLifts(prio, waits, t, t);
      if waits[u].Some? {
        DonateLifts(prio, waits, t, waits[u].value);
        if u == t || OnTheWay(prio, waits, t, u) {
          LeadsOn(prio, waits, t, u);
        }
      }
    }
  }

  // In particular, if only t's own donation was missing, none is missing afterwards.
  lemma DonateCloses(prio: seq<int>, waits: seq<Option<Tid>>, t: Tid)
    requires WellFormed(prio, waits) && t < |prio|
    requires OthersInherit(prio, waits, t)
    ensures Closed(Donate(prio, waits, t), waits)
  {
    hide OnTheWay, Donate, Closed;
    DonateClosesIff(prio, waits, t);
    forall u: Tid | u < |prio| && u != t ensures WillInherit(prio, waits, t, u) {
      assert Inherited(prio, waits, u);
      if waits[u].Some? && OnTheWay(prio, waits, t, waits[u].value) {
        WayIsLow(prio, waits, t, waits[u].value);
      }
    }
  }

  lemma WayIsLow(prio: seq<int>, waits: seq<Option<Tid>>, t: Tid, u: Tid)
    requires t < |prio| && OnTheWay(prio, waits, t, u)
    ensures u < |prio| && prio[u] < prio[t]
  {
    var k: nat :| k > 0 && HolderAt(waits, t, k) == Some(u) && LowUpTo(prio, waits, t, prio[t], k);
    assert IsLow(prio, HolderAt(waits, t, k), prio[t]);
  }

  // Priorities only rise, and only to the donated one.
  lemma {:induction false} DonateRaises(prio: seq<int>, waits: seq<Option<Tid>>, t: Tid, u: Tid)
    requires WellFormed(prio, waits) && t < |prio| && u < |prio|
    ensures var r := Donate(prio, waits, t); r[u] == prio[u] || prio[u] < prio[t] == r[u]
    decreases Below(prio, prio[t])
  {
    if waits[t].Some? && prio[waits[t].value] < prio[t] {
      var h := waits[t].value;
      BelowDrops(prio, h, prio[t]);
      DonateRaises(prio[h := prio[t]], waits, h, u);
    }
  }

  // The result is the least closed assignment above the old one.
  lemma {:induction false} DonateLeast(prio: seq<int>, waits: seq<Option<Tid>>, t: Tid, other: seq<int>)
    requires WellFormed(prio, waits) && t < |prio|
    requires Closed(other, waits) && forall u | 0 <= u < |prio| :: prio[u] <= other[u]
    ensures forall u | 0 <= u < |prio| :: Donate(prio, waits, t)[u] <= other[u]
    decreases Below(prio, prio[t])
  {
    if waits[t].Some? && prio[waits[t].value] < prio[t] {
      var h := waits[t].value;
      BelowDrops(prio, h, prio[t]);
      assert Inherited(other, waits, t);
      DonateLeast(prio[h := prio[t]], waits, h, other);
    }
  }

  // p is below every closed assignment that is above p0.
  ghost predicate LeastClosed(p: seq<int>, p0: seq<int>, waits: seq<Option<Tid>>) {
    && |p| == |p0|
    && forall other | Closed(other, waits) && |other| == |p0| && (forall u | 0 <= u < |p0| :: p0[u] <= other[u]) ::
         forall u | 0 <= u < |p| :: p[u] <= other[u]
  }

  lemma DonateLeastClosed(prio: seq<int>, waits: seq<Option<Tid>>, t: Tid)
    requires WellFormed(prio, waits) && t < |prio|
    ensures LeastClosed(Donate(prio, waits, t), prio, waits)
  {
    forall other | Closed(other, waits) && |other| == |prio| && (forall u | 0 <= u < |prio| :: prio[u] <= other[u])
      ensures forall u | 0 <= u < |prio| :: Donate(prio, waits, t)[u] <= other[u]
    {
      DonateLeast(prio, waits, t, other);
    }
  }

  // The early stop can leave a donation missing: here thread 1 is high enough for thread 0, so the walk
  // stops, and thread 2 stays below the thread that waits for it.
  lemma EarlyStopNeedsTheOthers()
    ensures var prio, waits := [5, 5, 1], [Some(1), Some(2), None];
            WellFormed(prio, waits) && Donate(prio, waits, 0) == prio && !Closed(prio, waits)
  {
    assert !Inherited([5, 5, 1], [Some(1), Some(2), None], 1);
  }

  // The queue and the priorities move together: a ready thread that is lifted goes to its new place.
  function DonateQueue(prio: seq<int>, waits: seq<Option<Tid>>, status: seq<Status>, queue: seq<Tid>, t: Tid): seq<Tid>
    requires WellFormed(prio, waits) && t < |prio| == |status|
    requires forall i | 0 <= i < |queue| :: queue[i] < |prio|
    decreases Below(prio, prio[t])
  {
    if waits[t].None? then queue else
    var h := waits[t].value;
    if prio[h] >= prio[t] then queue else
    var lifted := prio[h := prio[t]];
    BelowDrops(prio, h, prio[t]);
    var removed := Removed(queue, h);
    RemovedBelow(queue, h, |prio|);
    if status[h] == Ready then
      var q := Enqueued(removed, lifted, h);
      DonateQueue(lifted, waits, status, q, h)
    else DonateQueue(lifted, waits, status, queue, h)
  }

  lemma RemovedBelow(queue: seq<Tid>, h: Tid, n: nat)
    requires forall i | 0 <= i < |queue| :: queue[i] < n
    ensures forall i | 0 <= i < |Removed(queue, h)| :: Removed(queue, h)[i] < n
  {
    var i := RemovedAt(queue, h);
  }

  // The queue holds exactly the ready threads, each once, highest priority first; the idle thread is
  // never on it.
  ghost predicate QueueOk(prio: seq<int>, status: seq<Status>, queue: seq<Tid>, idle: Tid) {
    && |status| == |prio|
    && Sorted(queue, prio) && Distinct(queue) && idle !in queue
    && forall t | 0 <= t < |status| && t != idle :: t in queue <==> status[t] == Ready
  }

  lemma LiftedQueue(prio: seq<int>, status: seq<Status>, queue: seq<Tid>, h: Tid, p: int, idle: Tid)
    requires QueueOk(prio, status, queue, idle) && h < |prio| && h != idle
    ensures (forall i | 0 <= i < |Removed(queue, h)| :: Removed(queue, h)[i] < |prio|)
    ensures QueueOk(prio[h := p], status,
                    if status[h] == Ready then Enqueued(Removed(queue, h), prio[h := p], h) else queue, idle)
  {
    RemovedFacts(queue, prio, h, p);
    if status[h] == Ready {
      EnqueuedFacts(Removed(queue, h), prio[h := p], h);
    } else {
      var i := RemovedAt(queue, h);
      assert i == |queue|;
    }
    hide Sorted, Distinct, Enqueued, Removed;
  }

  lemma {:induction false} DonateKeepsQueue(prio: seq<int>, waits: seq<Option<Tid>>, status: seq<Status>, queue: seq<Tid>, t: Tid, idle: Tid)
    requires WellFormed(prio, waits) && t < |prio| && QueueOk(prio, status, queue, idle)
    requires forall u | 0 <= u < |waits| :: waits[u] != Some(idle)
    ensures QueueOk(Donate(prio, waits, t), status, DonateQueue(prio, waits, status, queue, t), idle)
    decreases Below(prio, prio[t])
  {
    if waits[t].Some? && prio[waits[t].value] < prio[t] {
      var h := waits[t].value;
      BelowDrops(prio, h, prio[t]);
      LiftedQueue(prio, status, queue, h, prio[t], idle);
      var q := if status[h] == Ready then Enqueued(Removed(queue, h), prio[h := prio[t]], h) else queue;
      DonateKeepsQueue(prio[h := prio[t]], waits, status, q, h, idle);
    }
  }

  // x stands before y.
  ghost predicate Precedes(queue: seq<Tid>, x: Tid, y: Tid) {
    exists i, j | 0 <= i < j < |queue| :: queue[i] == x && queue[j] == y
  }

  lemma RemoveKeepsOrder(queue: seq<Tid>, h: Tid, x: Tid, y: Tid)
    requires Precedes(queue, x, y) && x != h && y != h
    ensures Precedes(Removed(queue, h), x, y)
  {
    var k := RemovedAt(queue, h);
    hide Removed;
    var r := Removed(queue, h);
    var i, j :| 0 <= i < j < |queue| && queue[i] == x && queue[j] == y;
    if k < |queue| {
      var a, b := if i < k then i else i - 1, if j < k then j else j - 1;
      assert r[a] == x && r[b] == y;
    }
  }

  lemma InsertKeepsOrder(queue: seq<Tid>, p: nat, h: Tid, x: Tid, y: Tid)
    requires Precedes(queue, x, y) && p <= |queue|
    ensures Precedes(queue[..p] + [h] + queue[p..], x, y)
  {
    var e := queue[..p] + [h] + queue[p..];
    var i, j :| 0 <= i < j < |queue| && queue[i] == x && queue[j] == y;
    var a, b := if i < p then i else i + 1, if j < p then j else j + 1;
    assert e[a] == x && e[b] == y;
  }

  lemma MoveKeepsOrder(queue: seq<Tid>, prio: seq<int>, h: Tid, x: Tid, y: Tid)
    requires h < |prio| && (forall i | 0 <= i < |Removed(queue, h)| :: Removed(queue, h)[i] < |prio|)
    requires Precedes(queue, x, y) && x != h && y != h
    ensures Precedes(Enqueued(Removed(queue, h), prio, h), x, y)
  {
    hide Removed, Precedes, InsertPoint;
    RemoveKeepsOrder(queue, h, x, y);
    var r := Removed(queue, h);
    InsertKeepsOrder(r, InsertPoint(r, prio, h), h, x, y);
  }

  // Threads that are not lifted keep their order, so equal priorities stay first come, first served.
  lemma {:induction false} DonateKeepsOrder(prio: seq<int>, waits: seq<Option<Tid>>, status: seq<Status>, queue: seq<Tid>, t: Tid, x: Tid, y: Tid)
    requires WellFormed(prio, waits) && t < |prio| == |status| && x < |prio| && y < |prio|
    requires forall i | 0 <= i < |queue| :: queue[i] < |prio|
    requires Precedes(queue, x, y)
    requires Donate(prio, waits, t)[x] == prio[x] && Donate(prio, waits, t)[y] == prio[y]
    ensures Precedes(DonateQueue(prio, waits, status, queue, t), x, y)
    decreases Below(prio, prio[t])
  {
    if waits[t].Some? && prio[waits[t].value] < prio[t] {
      hide Precedes, Removed, Enqueued;
      var h := waits[t].value;
      var lifted := prio[h := prio[t]];
      BelowDrops(prio, h, prio[t]);
      DonateRaises(lifted, waits, h, h);
      RemovedBelow(queue, h, |prio|);
      assert x != h && y != h;
      if status[h] == Ready {
        MoveKeepsOrder(queue, lifted, h, x, y);
        DonateKeepsOrder(lifted, waits, status, Enqueued(Removed(queue, h), lifted, h), h, x, y);
      } else {
        DonateKeepsOrder(lifted, waits, status, queue, h, x, y);
      }
    }
  }

  lemma DonateTurn(prio: seq<int>, waits: seq<Option<Tid>>, status: seq<Status>, queue: seq<Tid>, t: Tid, h: Tid)
    requires WellFormed(prio, waits) && t < |prio| == |status| && QueueBelow(queue, |prio|)
    requires waits[t] == Some(h) && prio[h] < prio[t]
    requires QueueBelow(Removed(queue, h), |prio|)
    ensures var lifted := prio[h := prio[t]];
            var q := if status[h] == Ready then Enqueued(Removed(queue, h), lifted, h) else queue;
            && Donate(prio, waits, t) == Donate(lifted, waits, h)
            && QueueBelow(q, |prio|)
            && DonateQueue(prio, waits, status, queue, t) == DonateQueue(lifted, waits, status, q, h)
  {
    hide Removed;
  }

  lemma DonateStops(prio: seq<int>, waits: seq<Option<Tid>>, status: seq<Status>, queue: seq<Tid>, t: Tid)
    requires WellFormed(prio, waits) && t < |prio| == |status| && QueueBelow(queue, |prio|)
    requires waits[t].Some? ==> prio[waits[t].value] >= prio[t]
    ensures Donate(prio, waits, t) == prio && DonateQueue(prio, waits, status, queue, t) == queue
  {}

  // Between two turns of the walk from t, at thread curr: what is left to do leads to the same end.
  ghost predicate Walking(p0: seq<int>, q0: seq<Tid>, waits: seq<Option<Tid>>, status: seq<Status>, idle: Tid, t: Tid,
                          prio: seq<int>, queue: seq<Tid>, curr: Tid) {
    && WellFormed(p0, waits) && WellFormed(prio, waits) && |status| == |prio| && t < |prio| && curr < |prio|
    && QueueBelow(q0, |prio|) && QueueBelow(queue, |prio|)
    && QueueOk(prio, status, queue, idle)
    && Donate(prio, waits, curr) == Donate(p0, waits, t)
    && DonateQueue(prio, waits, status, queue, curr) == DonateQueue(p0, waits, status, q0, t)
  }

  lemma WalkStarts(prio: seq<int>, queue: seq<Tid>, waits: seq<Option<Tid>>, status: seq<Status>, idle: Tid, t: Tid)
    requires WellFormed(prio, waits) && t < |prio| && QueueOk(prio, status, queue, idle)
    ensures Walking(prio, queue, waits, status, idle, t, prio, queue, t)
  {
    hide Donate, DonateQueue;
    QueueOkBelow(prio, status, queue, idle);
  }

  lemma WalkShape(p0: seq<int>, q0: seq<Tid>, waits: seq<Option<Tid>>, status: seq<Status>, idle: Tid, t: Tid,
                  prio: seq<int>, queue: seq<Tid>, curr: Tid)
    requires Walking(p0, q0, waits, status, idle, t, prio, queue, curr)
    ensures WellFormed(p0, waits) && WellFormed(prio, waits) && |status| == |prio| && t < |prio|
    ensures QueueBelow(q0, |prio|) && QueueBelow(queue, |prio|) && QueueOk(prio, status, queue, idle)
    ensures Donate(prio, waits, curr) == Donate(p0, waits, t)
    ensures DonateQueue(prio, waits, status, queue, curr) == DonateQueue(p0, waits, status, q0, t)
  {
    hide Donate, DonateQueue, QueueOk;
  }

  // One turn lifts the next thread on the chain and moves on to it; fewer threads are then below the donor.
  lemma WalkTurn(p0: seq<int>, q0: seq<Tid>, waits: seq<Option<Tid>>, status: seq<Status>, idle: Tid, t: Tid,
                 prio: seq<int>, queue: seq<Tid>, curr: Tid, next: Tid)
    requires Walking(p0, q0, waits, status, idle, t, prio, queue, curr)
    requires waits[curr] == Some(next) && next < |prio| && next != idle && prio[next] < prio[curr]
    ensures var lifted := prio[next := prio[curr]];
            && QueueBelow(Removed(queue, next), |prio|)
            && Walking(p0, q0, waits, status, idle, t, lifted,
                       if status[next] == Ready then Enqueued(Removed(queue, next), lifted, next) else queue, next)
            && Below(lifted, lifted[next]) < Below(prio, prio[curr])
  {
    hide Donate, DonateQueue, QueueOk, Enqueued, Removed;
    BelowDrops(prio, next, prio[curr]);
    LiftedQueue(prio, status, queue, next, prio[curr], idle);
    DonateTurn(prio, waits, status, queue, curr, next);
  }

  // Who each thread waits for: the holder of the lock it has donated to.
  function WaitsFor(donatedTo: seq<Option<LockId>>, holder: seq<Option<Tid>>): (w: seq<Option<Tid>>)
    ensures |w| == |donatedTo|
    ensures forall t | 0 <= t < |w| ::
              w[t] == if donatedTo[t].Some? && donatedTo[t].value < |holder| then holder[donatedTo[t].value] else None
  {
    seq(|donatedTo|, t requires 0 <= t < |donatedTo| =>
      if donatedTo[t].Some? && donatedTo[t].value < |holder| then holder[donatedTo[t].value] else None)
  }

  class PriorityKernel {
    var prio: seq<int>                     // effective_priority
    var donatedTo: seq<Option<LockId>>     // the lock each thread waits for
    var holder: seq<Option<Tid>>           // by lock
    var status: seq<Status>
    var queue: seq<Tid>                    // priority_queue
    var idle: Tid

    ghost function Waits(): seq<Option<Tid>>
      reads this
    {
      WaitsFor(donatedTo, holder)
    }

    ghost predicate Valid()
      reads this
    {
      && |donatedTo| == |prio| && idle < |prio|
      && (forall t | 0 <= t < |prio| && donatedTo[t].Some? :: donatedTo[t].value < |holder|)
      && (forall l | 0 <= l < |holder| && holder[l].Some? :: holder[l].value < |prio| && holder[l].value != idle)
      && QueueOk(prio, status, queue, idle)
    }

    constructor ()
      ensures Valid()
    {
      prio, donatedTo, holder, status, queue, idle := [0], [None], [], [Running], [], 0;
    }

    // recurse_donate(): when only t's donation is missing, afterwards none is; the new priorities are the
    // least that achieve it, and the queue is in order again.
    method RecurseDonate(t: Tid)
      requires Valid() && t < |prio|
      modifies `prio, `queue
      ensures Valid() && |prio| == old(|prio|) && WellFormed(old(prio), Waits())
      ensures prio == Donate(old(prio), Waits(), t)
      ensures queue == DonateQueue(old(prio), Waits(), status, old(queue), t)
      ensures LeastClosed(prio, old(prio), Waits())
      ensures OthersInherit(old(prio), Waits(), t) ==> Closed(prio, Waits())
    {
      hide Closed, Inherited, Donate, DonateQueue, Enqueued, Removed, LeastClosed, OthersInherit, Walking, QueueOk;
      ghost var waits := Waits();
      ghost var p0, q0 := prio, queue;
      var curr: Tid := t;
      DonateLeastClosed(prio, waits, t);
      if OthersInherit(prio, waits, t) {
        DonateCloses(prio, waits, t);
      }
      WalkStarts(prio, queue, waits, status, idle, t);
      WalkShape(p0, q0, waits, status, idle, t, prio, queue, curr);
      while donatedTo[curr].Some? && holder[donatedTo[curr].value].Some?
        invariant |prio| == |p0| == |status| && curr < |prio|
        invariant Walking(p0, q0, waits, status, idle, t, prio, queue, curr)
        decreases Below(prio, prio[curr])
      {
        WalkShape(p0, q0, waits, status, idle, t, prio, queue, curr);
        var next := holder[donatedTo[curr].value].value;
        assert waits[curr] == Some(next);
        if prio[next] < prio[curr] {
          WalkTurn(p0, q0, waits, status, idle, t, prio, queue, curr, next);
          prio := prio[next := prio[curr]];
          if status[next] == Ready {
            queue := Removed(queue, next);
            queue := Enqueued(queue, prio, next);
          }
          curr := next;
        } else {
          break;
        }
      }
      WalkShape(p0, q0, waits, status, idle, t, prio, queue, curr);
      DonateStops(prio, waits, status, queue, curr);
    }

    // thread_enqueue() under the priority policy, as thread_unblock() uses it.
    method Enqueue(t: Tid)
      requires Valid() && t < |prio| && t != idle && status[t] == Blocked
      modifies `queue, `status
      ensures Valid() && queue == Enqueued(old(queue), prio, t) && status == old(status)[t := Ready]
    {
      EnqueuedFacts(queue, prio, t);
      queue := Enqueued(queue, prio, t);
      status := status[t := Ready];
    }

    // thread_schedule_prio(), and the marking of its choice in thread_switch_tail(): the front of the
    // queue, which no ready thread outranks.
    method ScheduleNext() returns (next: Tid)
      requires Valid()
      modifies `queue, `status
      ensures Valid() && next < |prio|
      ensures old(queue) == [] ==> next == idle && queue == []
      ensures old(queue) != [] ==>
                && next == old(queue)[0] && queue == old(queue)[1..]
                && forall t | 0 <= t < |prio| && t != idle && old(status)[t] == Ready :: prio[t] <= prio[next]
      ensures status == old(status)[next := Running]
    {
      if queue != [] {
        next := queue[0];
        assert queue == [next] + queue[1..];
        queue := queue[1..];
      } else {
        next := idle;
      }
      status := status[next := Running];
    }
  }

  ghost predicate QueueBelow(queue: seq<Tid>, n: nat) {
    forall i | 0 <= i < |queue| :: queue[i] < n
  }

  lemma QueueOkBelow(prio: seq<int>, status: seq<Status>, queue: seq<Tid>, idle: Tid)
    requires QueueOk(prio, status, queue, idle)
    ensures QueueBelow(queue, |prio|) && |status| == |prio|
  {}
}
