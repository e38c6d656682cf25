// The kernel's doubly linked list, relinked in place. As in the C library the operations take
// elements, not lists; the ghost sequences say which chain those elements belong to.
module IntrusiveList {
  import opened ListOrder

  // c is a well-formed list: a head, the interior elements and a tail, linked in both directions.
  ghost predicate Linked(c: seq<ListElem>)
    reads c
  {
    && |c| >= 2
    && (forall i, j | 0 <= i < j < |c| :: c[i] != c[j])
    && c[0].prev == null && c[|c| - 1].next == null
    && (forall i {:trigger c[i].next} | 0 <= i < |c| - 1 :: c[i].next == c[i + 1])
    && (forall i {:trigger c[i].prev} | 0 < i < |c| :: c[i].prev == c[i - 1])
  }

  // The elements of s are linked to each other; nothing is said of the links that leave s.
  ghost predicate Segment(s: seq<ListElem>)
    reads s
  {
    && |s| > 0
    && (forall i, j | 0 <= i < j < |s| :: s[i] != s[j])
    && (forall i {:trigger s[i].next} | 0 <= i < |s| - 1 :: s[i].next == s[i + 1])
    && (forall i {:trigger s[i].prev} | 0 < i < |s| :: s[i].prev == s[i - 1])
  }

  lemma NextIs(c: seq<ListElem>, k: nat)
    requires Linked(c) && k < |c| - 1
    ensures c[k].next == c[k + 1] && (c[k + 1] == c[|c| - 1] <==> k == |c| - 2)
  {}

  lemma SamePlace(c: seq<ListElem>, i: nat, j: nat)
    requires Linked(c) && i < |c| && j < |c|
    ensures c[i] == c[j] <==> i == j
  {}

  ghost predicate Disjoint(c: seq<ListElem>, d: seq<ListElem>) {
    forall i, j | 0 <= i < |c| && 0 <= j < |d| :: c[i] != d[j]
  }

  ghost predicate Within(c: seq<ListElem>, d: seq<ListElem>) {
    forall k | 0 <= k < |c| :: c[k] in d
  }

  ghost function Cut<T>(c: seq<T>, i: nat, j: nat): seq<T>
    requires i <= j <= |c|
  {
    c[..i] + c[j..]
  }

  ghost function Paste<T>(c: seq<T>, k: nat, s: seq<T>): seq<T>
    requires k <= |c|
  {
    c[..k] + s + c[k..]
  }

  // Inserts elem just before "before", which is element k of chain c: an interior element or the tail.
  method Insert(before: ListElem, elem: ListElem, ghost c: seq<ListElem>, ghost k: nat)
    requires Linked(c) && 0 < k < |c| && before == c[k]
    requires elem !in c
    modifies elem, c[k - 1], c[k]
    ensures Linked(Paste(c, k, [elem]))
  {
    assert before.prev == c[k - 1];
    elem.prev := before.prev;
    elem.next := before;
    before.prev.next := elem;
    before.prev := elem;
  }

  // Removes interior element k of chain c and returns the one that followed it. The links of the
  // removed element itself are left as they were.
  method Remove(elem: ListElem, ghost c: seq<ListElem>, ghost k: nat) returns (following: ListElem)
    requires Linked(c) && 0 < k < |c| - 1 && elem == c[k]
    modifies c[k - 1], c[k + 1]
    ensures Linked(Cut(c, k, k + 1))
    ensures following == c[k + 1]
    ensures elem.prev == c[k - 1] && elem.next == c[k + 1]
  {
    assert elem.prev == c[k - 1] && elem.next == c[k + 1];
    elem.prev.next := elem.next;
    elem.next.prev := elem.prev;
    following := elem.next;
  }

  // First half of list_splice(): takes first..end, elements i to j of chain c, out of the chain.
  method Unlink(first: ListElem, end: ListElem, ghost c: seq<ListElem>, ghost i: nat, ghost j: nat)
    requires Linked(c) && 0 < i < j < |c| && first == c[i] && end == c[j - 1]
    modifies c[i - 1], c[j]
    ensures Linked(Cut(c, i, j)) && Segment(c[i..j])
  {
    assert first.prev == c[i - 1] && end.next == c[j];
    first.prev.next := end.next;
    end.next.prev := first.prev;
  }

  // Second half of list_splice(): puts the segment s before element k of chain c.
  method Link(before: ListElem, first: ListElem, end: ListElem, ghost c: seq<ListElem>, ghost k: nat, ghost s: seq<ListElem>)
    requires Linked(c) && Segment(s) && Disjoint(c, s)
    requires 0 < k < |c| && before == c[k] && first == s[0] && end == s[|s| - 1]
    modifies first, end, c[k - 1], c[k]
    ensures Linked(Paste(c, k, s))
  {
    assert before.prev == c[k - 1];
    first.prev := before.prev;
    end.next := before;
    before.prev.next := first;
    before.prev := end;
  }

  // Where element k of a chain is once its elements i to j are gone.
  ghost function After(i: nat, j: nat, k: nat): nat
    requires i <= j && (k <= i || j <= k)
  {
    if k <= i then k else k - (j - i)
  }

  ghost function Moved<T>(c: seq<T>, i: nat, j: nat, k: nat): seq<T>
    requires i <= j <= |c| && k <= |c| && (k <= i || j <= k)
  {
    Paste(Cut(c, i, j), After(i, j, k), c[i..j])
  }

  lemma MovedNothing<T>(c: seq<T>, i: nat, k: nat)
    requires i <= |c| && k <= |c|
    ensures Moved(c, i, i, k) == c
  {
    assert Cut(c, i, i) == c && c[i..i] == [];
  }

  // list_splice() inside one list: moves [first, last), elements i to j of chain c, to just before
  // element k. "before" must lie outside the moved segment: splicing before "first" itself would tie
  // the segment into a ring.
  method SpliceWithin(before: ListElem, first: ListElem, last: ListElem,
                      ghost c: seq<ListElem>, ghost i: nat, ghost j: nat, ghost k: nat)
    requires Linked(c) && 0 < i <= j < |c| && 0 < k < |c|
    requires before == c[k] && first == c[i] && last == c[j]
    requires k < i || j <= k
    modifies c
    ensures Linked(Moved(c, i, j, k))
  {
    if first == last {
      assert i == j;
      MovedNothing(c, i, k);
      return;
    }
    var end := last.prev;
    Unlink(first, end, c, i, j);
    assert Cut(c, i, j)[After(i, j, k)] == before;
    Link(before, first, end, Cut(c, i, j), After(i, j, k), c[i..j]);
  }

  // list_splice() between two lists: the segment leaves chain c and enters chain d.
  method SpliceAcross(before: ListElem, first: ListElem, last: ListElem,
                      ghost c: seq<ListElem>, ghost i: nat, ghost j: nat, ghost d: seq<ListElem>, ghost k: nat)
    requires Linked(c) && Linked(d) && Disjoint(c, d)
    requires 0 < i <= j < |c| && 0 < k < |d|
    requires before == d[k] && first == c[i] && last == c[j]
    modifies c, d
    ensures Linked(Cut(c, i, j)) && Linked(Paste(d, k, c[i..j]))
    ensures Disjoint(Cut(c, i, j), Paste(d, k, c[i..j]))
  {
    if first == last {
      assert i == j && c[i..j] == [];
      assert Cut(c, i, j) == c;
      assert Paste(d, k, []) == d;
      return;
    }
    var end := last.prev;
    Unlink(first, end, c, i, j);
    Link(before, first, end, d, k, c[i..j]);
  }

  // find_end_of_run(): the end of the run that starts at a, element i of chain c, and ends not after
  // b, element j. "cost" counts the comparisons.
  method FindEndOfRun(a: ListElem, b: ListElem, less: Less, ghost c: seq<ListElem>, ghost i: nat, ghost j: nat)
    returns (e: ListElem, ghost cost: nat)
    requires Linked(c) && 0 < i < j < |c| && a == c[i] && b == c[j]
    ensures e == c[RunEnd(less, c, i, j)]
    ensures cost == RunCost(less, c, i, j)
  {
    e, cost := a, 0;
    ghost var n := 0;
    while true
      invariant i + n < j && e == c[i + n] && cost == n
      invariant RunEnd(less, c, i, j) == RunEnd(less, c, i + n, j)
      decreases j - n
    {
      e := e.next;
      n := n + 1;
      if e == b {
        break;
      }
      cost := cost + 1;
      if Lt(less, e, e.prev) {
        break;
      }
    }
  }

  // One splice of the merge: element q moves back to just before element p.
  lemma MovedBack<T>(d: seq<T>, p: nat, q: nat)
    requires p < q < |d|
    ensures Moved(d, q, q + 1, p) == d[..p] + [d[q]] + d[p..q] + d[q + 1..]
  {}

  // What the splice does to the three parts of the range [i, j) the merge works on.
  lemma MovedBackParts<T>(d: seq<T>, i: nat, p: nat, q: nat, j: nat)
    requires i <= p < q < j <= |d|
    ensures var d' := Moved(d, q, q + 1, p);
            && |d'| == |d| && d'[..i] == d[..i] && d'[j..] == d[j..]
            && d'[i..p + 1] == d[i..p] + [d[q]]
            && d'[p + 1..q + 1] == d[p..q] && d'[q + 1..j] == d[q + 1..j]
            && d'[p + 1] == d[p]
  {
    MovedBack(d, p, q);
  }

  lemma MovedBackElements<T>(d: seq<T>, p: nat, q: nat)
    requires p < q < |d|
    ensures multiset(Moved(d, q, q + 1, p)) == multiset(d)
  {
    MovedBack(d, p, q);
    assert d == d[..p] + d[p..q] + [d[q]] + d[q + 1..];
  }

  // Midway through merging [i, m) and [m, j) of chain c, the chain is d: what is merged so far is
  // d[i..p], what is left of the two runs is d[p..q] and d[q..j].
  ghost predicate Merging(less: Less, c: seq<ListElem>, i: nat, m: nat, j: nat,
                          d: seq<ListElem>, p: nat, q: nat, cost: nat)
  {
    && i <= m <= j < |c| == |d| && i <= p <= q <= j
    && multiset(d) == multiset(c)
    && d[..i] == c[..i] && d[j..] == c[j..]
    && d[i..p] + Merge(less, d[p..q], d[q..j]) == Merge(less, c[i..m], c[m..j])
    && cost + MergeCost(less, d[p..q], d[q..j]) == MergeCost(less, c[i..m], c[m..j])
  }

  lemma MergingStart(less: Less, c: seq<ListElem>, i: nat, m: nat, j: nat)
    requires i <= m <= j < |c|
    ensures Merging(less, c, i, m, j, c, i, m, 0)
  {
    assert c[i..i] == [];
  }

  lemma MergingLeft(less: Less, c: seq<ListElem>, i: nat, m: nat, j: nat, d: seq<ListElem>, p: nat, q: nat, cost: nat)
    requires Merging(less, c, i, m, j, d, p, q, cost) && p < q < j && !Lt(less, d[q], d[p])
    ensures Merging(less, c, i, m, j, d, p + 1, q, cost + 1)
  {
    assert d[p..q][1..] == d[p + 1..q] && d[i..p] + [d[p]] == d[i..p + 1];
  }

  lemma MergingRight(less: Less, c: seq<ListElem>, i: nat, m: nat, j: nat, d: seq<ListElem>, p: nat, q: nat, cost: nat, d': seq<ListElem>)
    requires Merging(less, c, i, m, j, d, p, q, cost) && p < q < j && Lt(less, d[q], d[p])
    requires d' == Moved(d, q, q + 1, p)
    ensures Merging(less, c, i, m, j, d', p + 1, q + 1, cost + 1)
  {
    MovedBackParts(d, i, p, q, j);
    MovedBackElements(d, p, q);
    assert d[q..j][1..] == d[q + 1..j];
    assert d[i..p] + ([d[q]] + Merge(less, d[p..q], d[q + 1..j])) == d[i..p] + [d[q]] + Merge(less, d[p..q], d[q + 1..j]);
  }

  lemma MergingDone(less: Less, c: seq<ListElem>, i: nat, m: nat, j: nat, d: seq<ListElem>, p: nat, q: nat, cost: nat)
    requires Merging(less, c, i, m, j, d, p, q, cost) && (p == q || q == j)
    ensures multiset(d) == multiset(c)
    ensures d == c[..i] + Merge(less, c[i..m], c[m..j]) + c[j..]
    ensures cost == MergeCost(less, c[i..m], c[m..j])
  {
    assert Merge(less, d[p..q], d[q..j]) == d[p..q] + d[q..j];
    assert d == d[..i] + (d[i..p] + (d[p..q] + d[q..j])) + d[j..];
  }

  // The merge takes its next element from the second run: element q moves to just before a0, element p.
  method TakeSecond(a0: ListElem, a1b0: ListElem, ghost d: seq<ListElem>, ghost p: nat, ghost q: nat)
    returns (next: ListElem, ghost d': seq<ListElem>)
    requires Linked(d) && 0 < p < q < |d| - 1 && a0 == d[p] && a1b0 == d[q]
    modifies d
    ensures d' == Moved(d, q, q + 1, p) && |d'| == |d| && Linked(d')
    ensures d'[p + 1] == a0 && next == d'[q + 1]
    ensures forall k | q < k < |d| :: d'[k] == d[k]
    ensures Within(d', d)
  {
    next := a1b0.next;
    SpliceWithin(a0, next.prev, next, d, q, q + 1, p);
    d' := Moved(d, q, q + 1, p);
    MovedBack(d, p, q);
  }

  // inplace_merge(): merges elements [i, m) and [m, j) of chain c where they stand.
  method InplaceMerge(a: ListElem, b: ListElem, b1: ListElem, less: Less,
                      ghost c: seq<ListElem>, ghost i: nat, ghost m: nat, ghost j: nat)
    returns (ghost d: seq<ListElem>, ghost cost: nat)
    requires Linked(c) && 0 < i <= m <= j < |c|
    requires a == c[i] && b == c[m] && b1 == c[j]
    modifies c
    ensures d == c[..i] + Merge(less, c[i..m], c[m..j]) + c[j..]
    ensures Linked(d) && Within(d, c)
    ensures cost == MergeCost(less, c[i..m], c[m..j])
  {
    hide Merge, MergeCost, Moved, Merging, Lt;
    var a0, a1b0 := a, b;
    ghost var p, q := i, m;
    d, cost := c, 0;
    MergingStart(less, c, i, m, j);
    hide Linked;
    while a0 != a1b0 && a1b0 != b1
      invariant Linked(d) && |d| == |c| && i <= p <= q <= j
      invariant Merging(less, c, i, m, j, d, p, q, cost)
      invariant Within(d, c)
      invariant a0 == d[p] && a1b0 == d[q] && b1 == d[j]
      decreases 2 * j - p - q
    {
      SamePlace(d, p, q);
      SamePlace(d, q, j);
      if !Lt(less, a1b0, a0) {
        MergingLeft(less, c, i, m, j, d, p, q, cost);
        NextIs(d, p);
        a0 := a0.next;
        p := p + 1;
      } else {
        ghost var d';
        a1b0, d' := TakeSecond(a0, a1b0, d, p, q);
        MergingRight(less, c, i, m, j, d, p, q, cost, d');
        d, p, q := d', p + 1, q + 1;
      }
      cost := cost + 1;
    }
    SamePlace(d, p, q);
    SamePlace(d, q, j);
    MergingDone(less, c, i, m, j, d, p, q, cost);
  }

  // The list after its elements [i, j), two runs meeting at m, have been merged.
  ghost function Merged(less: Less, c: seq<ListElem>, i: nat, m: nat, j: nat): seq<ListElem>
    requires i <= m <= j <= |c|
  {
    c[..i] + Merge(less, c[i..m], c[m..j]) + c[j..]
  }

  lemma MergedShape(less: Less, c: seq<ListElem>, i: nat, m: nat, j: nat)
    requires i <= m <= j <= |c|
    ensures var d := Merged(less, c, i, m, j);
            && |d| == |c| && d[..i] == c[..i] && d[i..j] == Merge(less, c[i..m], c[m..j]) && d[j..] == c[j..]
            && multiset(d) == multiset(c)
  {
    hide Merge;
    MergeMultiset(less, c[i..m], c[m..j]);
    InEither(Merge(less, c[i..m], c[m..j]), c[i..m], c[m..j]);
    assert c == c[..i] + (c[i..m] + c[m..j]) + c[j..];
  }

  lemma MergedEnds(less: Less, c: seq<ListElem>, i: nat, m: nat, j: nat)
    requires 0 < i <= m <= j < |c|
    ensures var d := Merged(less, c, i, m, j);
            |d| == |c| && d[0] == c[0] && d[j] == c[j] && d[|c| - 1] == c[|c| - 1]
  {
    hide Merge;
    MergedShape(less, c, i, m, j);
    var d := Merged(less, c, i, m, j);
    assert d[0] == d[..i][0] && d[j] == d[j..][0] && d[|d| - 1] == d[j..][|d| - 1 - j];
  }

  // Midway through a pass over a list that held s: "done" is finished, s[k..] is still to come.
  ghost predicate Passing(less: Less, s: seq<ListElem>, done: seq<ListElem>, k: nat, runs: nat, cost: nat)
  {
    && k <= |s|
    && done + Pass(less, s, k, |s|) == WholePass(less, s)
    && runs + PassRuns(less, s, k, |s|) == PassRuns(less, s, 0, |s|)
    && cost + PassCost(less, s, k, |s|) == PassCost(less, s, 0, |s|)
  }

  lemma PassingStart(less: Less, s: seq<ListElem>)
    ensures Passing(less, s, [], 0, 0, 0)
  {}

  lemma PassingLast(less: Less, s: seq<ListElem>, done: seq<ListElem>, k: nat, runs: nat, cost: nat)
    requires Passing(less, s, done, k, runs, cost) && k < |s| && RunEnd(less, s, k, |s|) == |s|
    ensures done + s[k..] == WholePass(less, s)
    ensures runs + 1 == PassRuns(less, s, 0, |s|)
    ensures cost + RunCost(less, s, k, |s|) == PassCost(less, s, 0, |s|)
  {}

  lemma PassingEnd(less: Less, s: seq<ListElem>, done: seq<ListElem>, runs: nat, cost: nat)
    requires Passing(less, s, done, |s|, runs, cost)
    ensures done == WholePass(less, s)
    ensures runs == PassRuns(less, s, 0, |s|)
    ensures cost == PassCost(less, s, 0, |s|)
  {}

  // One turn of the pass merges two runs in place and goes on after them.
  lemma PassingStep(less: Less, s: seq<ListElem>, done: seq<ListElem>, k: nat, runs: nat, cost: nat, m: nat, j: nat, merged: seq<ListElem>)
    requires Passing(less, s, done, k, runs, cost) && k < |s|
    requires m == RunEnd(less, s, k, |s|) < |s| && j == RunEnd(less, s, m, |s|)
    requires merged == Merge(less, s[k..m], s[m..j])
    ensures Passing(less, s, done + merged, j, runs + 1,
                    cost + RunCost(less, s, k, |s|) + RunCost(less, s, m, |s|) + MergeCost(less, s[k..m], s[m..j]))
  {
    hide Merge, MergeCost, RunEnd, RunCost, Pass, PassRuns, PassCost, WholePass;
    PassUnfold(less, s, k, m, j);
    PassRunsUnfold(less, s, k, m, j);
    PassCostUnfold(less, s, k, m, j);
    assert done + (merged + Pass(less, s, j, |s|)) == done + merged + Pass(less, s, j, |s|);
  }

  lemma SuffixSlices<T>(c: seq<T>, i: nat, m: nat, e: nat, s: seq<T>)
    requires 0 < i <= m <= e <= |c| && i - 1 <= |s| && c[i..e] == s[i - 1..]
    ensures m - 1 <= |s| && c[i..m] == s[i - 1..m - 1] && c[m..e] == s[m - 1..]
  {
    assert |c[i..e]| == e - i && |s[i - 1..]| == |s| - (i - 1);
    assert c[i..m] == c[i..e][..m - i] && s[i - 1..m - 1] == s[i - 1..][..m - i];
    assert c[m..e] == c[i..e][m - i..] && s[m - 1..] == s[i - 1..][m - i..];
  }

  lemma AgreeingSlices<T>(c: seq<T>, d: seq<T>, i: nat, j: nat, e: nat)
    requires 0 < i <= j <= e < |c| == |d| && d[..i] == c[..i] && d[j..] == c[j..]
    ensures d[j..e] == c[j..e] && d[1..j] == c[1..i] + d[i..j]
  {
    assert d[j..e] == d[j..][..e - j] && c[j..e] == c[j..][..e - j];
    assert d[1..i] == d[..i][1..] && c[1..i] == c[..i][1..];
    assert d[1..j] == d[1..i] + d[i..j];
  }

  // The same, as the chain of the list shows it: elements 1 to i are finished, the rest is as it was.
  ghost predicate InPass(less: Less, s: seq<ListElem>, c: seq<ListElem>, i: nat, runs: nat, cost: nat)
  {
    && 0 < i < |c| == |s| + 2
    && c[i..|c| - 1] == s[i - 1..]
    && Passing(less, s, c[1..i], i - 1, runs, cost)
  }

  lemma InPassStart(less: Less, s: seq<ListElem>, c: seq<ListElem>)
    requires |c| == |s| + 2 && c[1..|c| - 1] == s
    ensures InPass(less, s, c, 1, 0, 0)
  {
    assert c[1..1] == [] && s[0..] == s;
    PassingStart(less, s);
  }

  lemma InPassLast(less: Less, s: seq<ListElem>, c: seq<ListElem>, i: nat, runs: nat, cost: nat)
    requires InPass(less, s, c, i, runs, cost) && i < |c| - 1 && RunEnd(less, c, i, |c| - 1) == |c| - 1
    ensures c[1..|c| - 1] == WholePass(less, s)
    ensures runs + 1 == PassRuns(less, s, 0, |s|)
    ensures cost + RunCost(less, c, i, |c| - 1) == PassCost(less, s, 0, |s|)
  {
    hide RunEnd, RunCost, Passing;
    var e := |c| - 1;
    RunElsewhere(less, c, i, e, s, i - 1);
    PassingLast(less, s, c[1..i], i - 1, runs, cost);
    assert c[1..e] == c[1..i] + c[i..e];
  }

  lemma InPassEnd(less: Less, s: seq<ListElem>, c: seq<ListElem>, runs: nat, cost: nat)
    requires |c| > 0 && InPass(less, s, c, |c| - 1, runs, cost)
    ensures c[1..|c| - 1] == WholePass(less, s)
    ensures runs == PassRuns(less, s, 0, |s|) && cost == PassCost(less, s, 0, |s|)
  {
    hide Passing;
    PassingEnd(less, s, c[1..|c| - 1], runs, cost);
  }

  lemma InPassTurn(less: Less, s: seq<ListElem>, c: seq<ListElem>, i: nat, runs: nat, cost: nat, m: nat, j: nat, d: seq<ListElem>, cost': nat)
    requires InPass(less, s, c, i, runs, cost) && i < |c| - 1
    requires m == RunEnd(less, c, i, |c| - 1) < |c| - 1 && j == RunEnd(less, c, m, |c| - 1)
    requires d == Merged(less, c, i, m, j)
    requires cost' == cost + RunCost(less, c, i, |c| - 1) + RunCost(less, c, m, |c| - 1) + MergeCost(less, c[i..m], c[m..j])
    ensures InPass(less, s, d, j, runs + 1, cost')
  {
    hide Merge, MergeCost, RunEnd, Merged, Passing;
    var e := |c| - 1;
    RunElsewhere(less, c, i, e, s, i - 1);
    SuffixSlices(c, i, m, e, s);
    RunElsewhere(less, c, m, e, s, m - 1);
    SuffixSlices(c, m, j, e, s);
    MergedShape(less, c, i, m, j);
    AgreeingSlices(c, d, i, j, e);
    PassingStep(less, s, c[1..i], i - 1, runs, cost, m - 1, j - 1, Merge(less, c[i..m], c[m..j]));
  }

  lemma PastedElems(c: seq<ListElem>, k: nat, x: ListElem)
    requires 0 < k < |c|
    ensures var d, s := Paste(c, k, [x]), c[1..|c| - 1];
            d[1..|d| - 1] == s[..k - 1] + [x] + s[k - 1..]
  {}

  lemma CutDrops(c: seq<ListElem>, k: nat)
    requires Linked(c) && 0 < k < |c| - 1
    ensures c[k] !in Cut(c, k, k + 1)
    ensures Cut(c, k, k + 1)[0] == c[0] && Cut(c, k, k + 1)[|c| - 2] == c[|c| - 1]
  {}

  // Midway through list_unique() on a list that held s: elements up to k of chain c are kept, "dups"
  // has been removed.
  ghost predicate InUnique(less: Less, s: seq<ListElem>, c: seq<ListElem>, k: nat, dups: seq<ListElem>)
  {
    && 0 < k < |c| - 1
    && c[1..k + 1] + UniquesAfter(less, c[k], c[k + 1..|c| - 1]) == Uniques(less, s)
    && dups + DuplicatesAfter(less, c[k], c[k + 1..|c| - 1]) == Duplicates(less, s)
  }

  lemma InUniqueEmpty(less: Less, s: seq<ListElem>)
    ensures s == [] ==> Uniques(less, s) == [] && Duplicates(less, s) == []
  {}

  lemma InUniqueStart(less: Less, s: seq<ListElem>, c: seq<ListElem>)
    requires |c| == |s| + 2 > 2 && c[1..|c| - 1] == s
    ensures InUnique(less, s, c, 1, [])
  {
    assert s[0] == c[1] && s[1..] == c[2..|c| - 1] && c[1..2] == [c[1]];
  }

  lemma InUniqueBounds(less: Less, s: seq<ListElem>, c: seq<ListElem>, k: nat, dups: seq<ListElem>)
    requires InUnique(less, s, c, k, dups)
    ensures 0 < k < |c| - 1
  {}

  lemma InUniqueKeep(less: Less, s: seq<ListElem>, c: seq<ListElem>, k: nat, dups: seq<ListElem>)
    requires InUnique(less, s, c, k, dups) && k + 1 < |c| - 1 && !Tied(less, c[k], c[k + 1])
    ensures InUnique(less, s, c, k + 1, dups)
  {
    var rest := c[k + 1..|c| - 1];
    assert rest[0] == c[k + 1] && rest[1..] == c[k + 2..|c| - 1];
    assert c[1..k + 2] == c[1..k + 1] + [c[k + 1]];
  }

  lemma InUniqueDrop(less: Less, s: seq<ListElem>, c: seq<ListElem>, k: nat, dups: seq<ListElem>)
    requires InUnique(less, s, c, k, dups) && k + 1 < |c| - 1 && Tied(less, c[k], c[k + 1])
    ensures InUnique(less, s, Cut(c, k + 1, k + 2), k, dups + [c[k + 1]])
  {
    var rest, d := c[k + 1..|c| - 1], Cut(c, k + 1, k + 2);
    assert rest[0] == c[k + 1] && rest[1..] == c[k + 2..|c| - 1] == d[k + 1..|d| - 1];
    assert d[1..k + 1] == c[1..k + 1] && d[k] == c[k];
    assert dups + ([c[k + 1]] + DuplicatesAfter(less, c[k], rest[1..])) == dups + [c[k + 1]] + DuplicatesAfter(less, c[k], rest[1..]);
  }

  lemma InUniqueEnd(less: Less, s: seq<ListElem>, c: seq<ListElem>, k: nat, dups: seq<ListElem>)
    requires InUnique(less, s, c, k, dups) && k == |c| - 2
    ensures c[1..|c| - 1] == Uniques(less, s) && dups == Duplicates(less, s)
  {}

  class List {
    const head: ListElem
    const tail: ListElem
    ghost var chain: seq<ListElem>

    ghost predicate Valid()
      reads this, chain
    {
      Linked(chain) && chain[0] == head && chain[|chain| - 1] == tail
    }

    // The interior elements, front to back.
    ghost function Elems(): seq<ListElem>
      reads this, chain
      requires Valid()
    {
      chain[1..|chain| - 1]
    }

    constructor (headAddr: nat, tailAddr: nat)
      ensures Valid() && Elems() == [] && fresh(chain)
    {
      var h := new ListElem(headAddr);
      var t := new ListElem(tailAddr);
      head, tail := h, t;
      chain := [h, t];
      new;
      h.next := t;
      t.prev := h;
    }

    // One turn of the pass: from a0, element i, finds two adjacent runs and merges them. "last" tells
    // that there was only one, which reaches the end of the list.
    method PassTurn(a0: ListElem, less: Less, ghost s: seq<ListElem>, ghost i: nat, ghost runs: nat, ghost cost: nat)
      returns (b1: ListElem, last: bool, ghost j: nat, ghost cost': nat)
      requires Valid() && 0 < i < |chain| - 1 && a0 == chain[i]
      requires InPass(less, s, chain, i, runs, cost)
      modifies this, chain
      ensures Valid() && |chain| == old(|chain|) && Within(chain, old(chain))
      ensures last ==>
                && Elems() == WholePass(less, s)
                && runs + 1 == PassRuns(less, s, 0, |s|) && cost' == PassCost(less, s, 0, |s|)
      ensures !last ==>
                && i < j < |chain| && b1 == chain[j]
                && InPass(less, s, chain, j, runs + 1, cost')
    {
      hide Merge, MergeCost, RunEnd, RunCost, InPass, WholePass, PassRuns, PassCost;
      ghost var c := chain;
      var a1b0, c1 := FindEndOfRun(a0, tail, less, c, i, |c| - 1);
      ghost var m := RunEnd(less, c, i, |c| - 1);
      if a1b0 == tail {
        assert m == |c| - 1;
        InPassLast(less, s, c, i, runs, cost);
        return tail, true, m, cost + c1;
      }
      var b, c2 := FindEndOfRun(a1b0, tail, less, c, m, |c| - 1);
      j := RunEnd(less, c, m, |c| - 1);
      ghost var d, c3 := InplaceMerge(a0, a1b0, b, less, c, i, m, j);
      MergedEnds(less, c, i, m, j);
      InPassTurn(less, s, c, i, runs, cost, m, j, d, cost + c1 + c2 + c3);
      chain := d;
      return b, false, j, cost + c1 + c2 + c3;
    }

    // One pass of list_sort(): the body of its outer loop.
    method SortPass(less: Less) returns (outputRuns: nat, ghost cost: nat)
      requires Valid()
      modifies this, chain
      ensures Valid() && |chain| == old(|chain|) && Within(chain, old(chain))
      ensures Elems() == WholePass(less, old(Elems()))
      ensures outputRuns == PassRuns(less, old(Elems()), 0, |old(Elems())|)
      ensures cost == PassCost(less, old(Elems()), 0, |old(Elems())|)
    {
      hide InPass, WholePass, PassRuns, PassCost;
      ghost var s, i := Elems(), 1;
      outputRuns, cost := 0, 0;
      InPassStart(less, s, chain);
      var a0 := head.next;
      while a0 != tail
        invariant Valid() && |chain| == old(|chain|) && Within(chain, old(chain))
        invariant 0 < i < |chain| && a0 == chain[i]
        invariant InPass(less, s, chain, i, outputRuns, cost)
        decreases |chain| - i
      {
        var b1, last, j, k := PassTurn(a0, less, s, i, outputRuns, cost);
        outputRuns, cost := outputRuns + 1, k;
        if last {
          return;
        }
        a0, i := b1, j;
      }
      InPassEnd(less, s, chain, outputRuns, cost);
    }

    // list_sort(): leaves the unique stable sorted permutation, within its comparison budget.
    method Sort(less: Less) returns (ghost cost: nat)
      requires Valid() && StrictWeak(less)
      modifies this, chain
      ensures Valid() && |chain| == old(|chain|) && Within(chain, old(chain))
      ensures StableSortOf(less, old(Elems()), Elems())
      ensures cost <= 2 * |old(Elems())| * Passes(Runs(less, old(Elems())))
    {
      ghost var s := Elems();
      cost := 0;
      SortIsStableSort(less, s);
      SortCostBound(less, s);
      while true
        invariant Valid() && |chain| == old(|chain|) && Within(chain, old(chain))
        invariant ListOrder.Sort(less, Elems()) == ListOrder.Sort(less, s)
        invariant cost + SortCost(less, Elems()) == SortCost(less, s)
        decreases Runs(less, Elems())
      {
        ghost var t := Elems();
        WholePassFacts(less, t);
        var outputRuns, passCost := SortPass(less);
        cost := cost + passCost;
        if outputRuns <= 1 {
          break;
        }
      }
    }
  
    // list_insert_ordered(): elem goes before the first element it is less than.
    method InsertOrdered(elem: ListElem, less: Less)
      requires Valid() && elem !in chain
      modifies this, chain, elem
      ensures Valid() && Elems() == ListOrder.InsertOrdered(less, old(Elems()), elem)
    {
      var e := head.next;
      ghost var k := 1;
      while e != tail
        invariant 0 < k < |chain| && e == chain[k]
        invariant InsertPoint(less, Elems(), elem, 0) == InsertPoint(less, Elems(), elem, k - 1)
        decreases |chain| - k
      {
        if Lt(less, elem, e) {
          break;
        }
        e, k := e.next, k + 1;
      }
      assert InsertPoint(less, Elems(), elem, 0) == k - 1;
      ghost var c := chain;
      Insert(e, elem, c, k);
      chain := Paste(c, k, [elem]);
      PastedElems(c, k, elem);
    }

    // list_reverse(): swaps the links of every element, then mends the two ends.
    method Reverse()
      requires Valid()
      modifies chain, this
      ensures Valid() && Elems() == Reversed(old(Elems()))
    {
      if head.next != tail {
        hide Reversed;
        SwapLinks();
        ghost var c, n := chain, |chain| - 1;
        head.next, tail.prev := tail.prev, head.next;
        assert head.next == c[n - 1] && tail.prev == c[1];
        head.next.prev, tail.prev.next := tail.prev.next, head.next.prev;
        chain := [head] + Reversed(c[1..n]) + [tail];
        assert forall i | 0 < i < n :: chain[i] == c[n - i];
      }
    }

    // The loop of list_reverse(): every interior element has its links exchanged.
    method SwapLinks()
      requires Valid() && |chain| > 2
      modifies chain
      ensures head.prev == null && head.next == chain[1] && tail.prev == chain[|chain| - 2] && tail.next == null
      ensures forall i {:trigger chain[i].prev} | 0 < i < |chain| - 1 :: chain[i].prev == chain[i + 1]
      ensures forall i {:trigger chain[i].next} | 0 < i < |chain| - 1 :: chain[i].next == chain[i - 1]
    {
      var e := head.next;
      ghost var k := 1;
      while e != tail
        invariant 0 < k < |chain| && e == chain[k]
        invariant head.prev == null && head.next == chain[1] && tail.prev == chain[|chain| - 2] && tail.next == null
        invariant forall i {:trigger chain[i].prev} | 0 < i < k :: chain[i].prev == chain[i + 1]
        invariant forall i {:trigger chain[i].next} | 0 < i < k :: chain[i].next == chain[i - 1]
        invariant forall i {:trigger chain[i].prev} | k <= i < |chain| - 1 :: chain[i].prev == chain[i - 1]
        invariant forall i {:trigger chain[i].next} | k <= i < |chain| - 1 :: chain[i].next == chain[i + 1]
        decreases |chain| - k
      {
        e.prev, e.next := e.next, e.prev;
        e, k := e.prev, k + 1;
      }
    }

    // list_push_back()
    method PushBack(elem: ListElem)
      requires Valid() && elem !in chain
      modifies this, chain, elem
      ensures Valid() && chain == Paste(old(chain), old(|chain|) - 1, [elem])
      ensures Elems() == old(Elems()) + [elem]
    {
      ghost var c := chain;
      Insert(tail, elem, c, |c| - 1);
      chain := Paste(c, |c| - 1, [elem]);
      PastedElems(c, |c| - 1, elem);
    }

    // Takes element k out of this list and, if "duplicates" is given, appends it there.
    method Drop(elem: ListElem, ghost k: nat, duplicates: List?)
      requires Valid() && 0 < k < |chain| - 1 && elem == chain[k]
      requires duplicates != null ==> duplicates != this && duplicates.Valid() && Disjoint(chain, duplicates.chain)
      modifies this, chain, duplicates, if duplicates == null then {} else set x | x in duplicates.chain
      ensures Valid() && chain == Cut(old(chain), k, k + 1)
      ensures duplicates != null ==>
                && duplicates.Valid() && Disjoint(chain, duplicates.chain)
                && duplicates.chain == Paste(old(duplicates.chain), old(|duplicates.chain|) - 1, [elem])
                && duplicates.Elems() == old(duplicates.Elems()) + [elem]
    {
      ghost var c := chain;
      CutDrops(c, k);
      var _ := Remove(elem, c, k);
      hide Linked;
      chain := Cut(c, k, k + 1);
      if duplicates != null {
        duplicates.PushBack(elem);
      }
    }

    ghost function Nodes(other: List?): set<object>
      reads this, other
    {
      {this as object} + (set x: object | x in chain)
      + if other == null then {} else {other as object} + (set x: object | x in other.chain)
    }

    // Midway through Unique(): s is what the list held, d what "duplicates" held, and all the elements
    // that may be relinked are in "nodes".
    ghost predicate UniqueMidway(less: Less, s: seq<ListElem>, d: seq<ListElem>, duplicates: List?, nodes: set<object>,
                                 elem: ListElem, k: nat, dups: seq<ListElem>)
      reads this, chain, duplicates, if duplicates == null then {} else set x | x in duplicates.chain
    {
      && Valid() && this in nodes && (forall i | 0 <= i < |chain| :: chain[i] in nodes)
      && InUnique(less, s, chain, k, dups) && elem == chain[k]
      && (duplicates != null ==>
            && duplicates != this && duplicates in nodes && duplicates.Valid() && Disjoint(chain, duplicates.chain)
            && (forall i | 0 <= i < |duplicates.chain| :: duplicates.chain[i] in nodes)
            && duplicates.Elems() == d + dups)
    }

    // One turn of the loop of list_unique().
    method UniqueTurn(less: Less, ghost s: seq<ListElem>, ghost d: seq<ListElem>, duplicates: List?, ghost nodes: set<object>,
                      elem: ListElem, ghost k: nat, ghost dups: seq<ListElem>)
      returns (elem': ListElem, ghost k': nat, ghost dups': seq<ListElem>)
      requires UniqueMidway(less, s, d, duplicates, nodes, elem, k, dups) && elem.next != tail
      modifies nodes
      ensures UniqueMidway(less, s, d, duplicates, nodes, elem', k', dups')
      ensures |chain| - k' < old(|chain|) - k && k' < |chain|
    {
      hide InUnique;
      ghost var c := chain;
      InUniqueBounds(less, s, c, k, dups);
      NextIs(c, k);
      var next: ListElem := elem.next;
      if Tied(less, elem, next) {
        InUniqueDrop(less, s, c, k, dups);
        Drop(next, k + 1, duplicates);
        return elem, k, dups + [next];
      } else {
        InUniqueKeep(less, s, c, k, dups);
        return next, k + 1, dups;
      }
    }

    // list_unique(): removes every element tied with the one kept before it; the removed ones go to
    // the back of "duplicates" if that is given.
    method Unique(duplicates: List?, less: Less)
      requires Valid()
      requires duplicates != null ==> duplicates != this && duplicates.Valid() && Disjoint(chain, duplicates.chain)
      modifies Nodes(duplicates)
      ensures Valid() && Elems() == Uniques(less, old(Elems()))
      ensures duplicates != null ==>
                && duplicates.Valid() && Disjoint(chain, duplicates.chain)
                && duplicates.Elems() == old(duplicates.Elems()) + Duplicates(less, old(Elems()))
    {
      hide Uniques, Duplicates, InUnique;
      ghost var k, s, dups: seq<ListElem> := 1, Elems(), [];
      if head.next == tail {
        InUniqueEmpty(less, s);
        return;
      }
      var elem: ListElem := head.next;
      InUniqueStart(less, s, chain);
      ghost var d := if duplicates == null then [] else duplicates.Elems();
      ghost var nodes := Nodes(duplicates);
      assert elem == chain[1];
      assert UniqueMidway(less, s, d, duplicates, nodes, elem, k, dups);
      hide UniqueMidway, Linked, Disjoint;
      while elem.next != tail
        invariant UniqueMidway(less, s, d, duplicates, nodes, elem, k, dups)
        decreases |chain| - k
      {
        elem, k, dups := UniqueTurn(less, s, d, duplicates, nodes, elem, k, dups);
      }
      UniqueDone(less, s, d, duplicates, nodes, elem, k, dups);
    }

    lemma UniqueDone(less: Less, s: seq<ListElem>, d: seq<ListElem>, duplicates: List?, nodes: set<object>,
                     elem: ListElem, k: nat, dups: seq<ListElem>)
      requires UniqueMidway(less, s, d, duplicates, nodes, elem, k, dups) && elem.next == tail
      ensures Valid() && Elems() == Uniques(less, s)
      ensures duplicates != null ==>
                && duplicates.Valid() && Disjoint(chain, duplicates.chain)
                && duplicates.Elems() == d + Duplicates(less, s)
    {
      hide Uniques, Duplicates, InUnique;
      InUniqueBounds(less, s, chain, k, dups);
      NextIs(chain, k);
      InUniqueEnd(less, s, chain, k, dups);
    }
  }
}
