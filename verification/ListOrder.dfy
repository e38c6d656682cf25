// The order theory behind the list library's natural merge sort, on sequences of list elements.
// What the pointer code of module IntrusiveList does in place is specified by the functions here.
module ListOrder {
  import opened Common

  // A list element: the two links, and the address by which a comparator tells elements apart.
  class ListElem {
    const addr: nat
    var prev: ListElem?
    var next: ListElem?

    constructor (addr: nat)
      ensures this.addr == addr && prev == null && next == null
    {
      this.addr := addr;
      prev, next := null, null;
    }
  }

  // A comparator. It receives the addresses of two elements.
  type Less = (nat, nat) -> bool

  ghost predicate StrictWeak(less: Less) {
    && (forall x :: !less(x, x))
    && (forall x, y, z :: less(x, y) && less(y, z) ==> less(x, z))
    && (forall x, y, z :: !less(x, y) && !less(y, z) ==> !less(x, z))
  }

  predicate Lt(less: Less, a: ListElem, b: ListElem) {
    less(a.addr, b.addr)
  }

  predicate Tied(less: Less, a: ListElem, b: ListElem) {
    !Lt(less, a, b) && !Lt(less, b, a)
  }

  // Every element is at most every later one.
  ghost predicate Sorted(less: Less, s: seq<ListElem>) {
    forall i, j | 0 <= i < j < |s| :: !Lt(less, s[j], s[i])
  }

  // What is_sorted() tests: no element is less than the one before it.
  ghost predicate NoDescent(less: Less, s: seq<ListElem>) {
    forall i, j | 0 <= i < j < |s| && j == i + 1 :: !Lt(less, s[j], s[i])
  }

  lemma {:induction false} NoDescentSorted(less: Less, s: seq<ListElem>)
    requires StrictWeak(less) && NoDescent(less, s)
    ensures Sorted(less, s)
  {
    if |s| > 1 {
      NoDescentSorted(less, s[1..]);
      forall j | 0 < j < |s| ensures !Lt(less, s[j], s[0]) {
        assert s[j] == s[1..][j - 1] && s[1] == s[1..][0];
        assert !Lt(less, s[1], s[0]);
      }
      assert forall i, j | 0 < i < j < |s| :: s[i] == s[1..][i - 1] && s[j] == s[1..][j - 1];
    }
  }

  // ---- The specification: the stable sorted permutation ----

  // The elements of s tied with x, in their order in s.
  ghost function Ties(less: Less, x: ListElem, s: seq<ListElem>): seq<ListElem> {
    if s == [] then [] else
    (if Tied(less, x, s[0]) then [s[0]] else []) + Ties(less, x, s[1..])
  }

  // t holds the elements of s, and ties are in the same order in both.
  ghost predicate Stable(less: Less, s: seq<ListElem>, t: seq<ListElem>) {
    && multiset(s) == multiset(t)
    && forall x | x in s :: Ties(less, x, s) == Ties(less, x, t)
  }

  ghost predicate StableSortOf(less: Less, s: seq<ListElem>, t: seq<ListElem>) {
    Sorted(less, t) && Stable(less, s, t)
  }

  lemma {:induction false} TiesConcat(less: Less, x: ListElem, s: seq<ListElem>, t: seq<ListElem>)
    ensures Ties(less, x, s + t) == Ties(less, x, s) + Ties(less, x, t)
  {
    if s == [] {
      assert s + t == t;
    } else {
      TiesConcat(less, x, s[1..], t);
      assert (s + t)[1..] == s[1..] + t;
    }
  }

  lemma SameElements(s: seq<ListElem>, t: seq<ListElem>)
    requires multiset(s) == multiset(t)
    ensures |s| == |t|
    ensures forall x :: x in s <==> x in t
  {
    assert |multiset(s)| == |s| && |multiset(t)| == |t|;
    assert forall x :: x in s <==> x in multiset(s);
    assert forall x :: x in t <==> x in multiset(t);
  }

  lemma StableTransitive(less: Less, s: seq<ListElem>, t: seq<ListElem>, u: seq<ListElem>)
    requires Stable(less, s, t) && Stable(less, t, u)
    ensures Stable(less, s, u)
  {
    SameElements(s, t);
  }

  lemma {:induction false} TiesMember(less: Less, x: ListElem, s: seq<ListElem>, y: ListElem)
    ensures y in Ties(less, x, s) <==> y in s && Tied(less, x, y)
  {
    if s != [] {
      TiesMember(less, x, s[1..], y);
      assert s == [s[0]] + s[1..];
    }
  }

  // Two minimal elements of the same elements are tied.
  lemma FirstTied(less: Less, t: seq<ListElem>, u: seq<ListElem>)
    requires StrictWeak(less) && Sorted(less, t) && Sorted(less, u)
    requires t != [] && multiset(t) == multiset(u)
    ensures u != [] && Tied(less, t[0], u[0])
  {
    SameElements(t, u);
    assert t[0] in t && u[0] in u;
    assert t[0] in u && u[0] in t;
    var i :| 0 <= i < |u| && u[i] == t[0];
    var j :| 0 <= j < |t| && t[j] == u[0];
  }

  // There is only one stable sorted permutation, whichever algorithm finds it.
  lemma {:induction false} StableSortUnique(less: Less, s: seq<ListElem>, t: seq<ListElem>, u: seq<ListElem>)
    requires StrictWeak(less)
    requires StableSortOf(less, s, t) && StableSortOf(less, s, u)
    ensures t == u
  {
    SameElements(s, t);
    SameElements(s, u);
    AgreeingTiesEqual(less, t, u);
  }

  // Dropping the same first element from two sequences keeps their ties in agreement.
  lemma StableTails(less: Less, h: ListElem, t: seq<ListElem>, u: seq<ListElem>)
    requires Stable(less, [h] + t, [h] + u)
    ensures Stable(less, t, u)
  {
    assert multiset([h] + t) == multiset{h} + multiset(t);
    assert multiset([h] + u) == multiset{h} + multiset(u);
    assert multiset(t) == multiset([h] + t) - multiset{h} == multiset([h] + u) - multiset{h} == multiset(u);
    forall x | x in t ensures Ties(less, x, t) == Ties(less, x, u) {
      assert x in [h] + t;
      var k := Ties(less, x, [h]);
      TiesConcat(less, x, [h], t);
      TiesConcat(less, x, [h], u);
      assert Ties(less, x, t) == (k + Ties(less, x, t))[|k|..];
      assert Ties(less, x, u) == (k + Ties(less, x, u))[|k|..];
    }
  }

  lemma {:induction false} AgreeingTiesEqual(less: Less, t: seq<ListElem>, u: seq<ListElem>)
    requires StrictWeak(less) && Sorted(less, t) && Sorted(less, u) && Stable(less, t, u)
    ensures t == u
  {
    SameElements(t, u);
    if t != [] {
      SameFirst(less, t, u);
      var t', u' := t[1..], u[1..];
      assert t == [t[0]] + t' && u == [t[0]] + u';
      StableTails(less, t[0], t', u');
      AgreeingTiesEqual(less, t', u');
    }
  }

  lemma SameFirst(less: Less, t: seq<ListElem>, u: seq<ListElem>)
    requires StrictWeak(less) && Sorted(less, t) && Sorted(less, u) && Stable(less, t, u)
    requires t != []
    ensures u != [] && t[0] == u[0]
  {
    FirstTied(less, t, u);
    assert t[0] in t && Tied(less, t[0], t[0]);
    assert Ties(less, t[0], t) == [t[0]] + Ties(less, t[0], t[1..]);
    assert Ties(less, t[0], u) == [u[0]] + Ties(less, t[0], u[1..]);
    assert Ties(less, t[0], t)[0] == t[0] && Ties(less, t[0], u)[0] == u[0];
  }

  // ---- inplace_merge() ----

  function Merge(less: Less, a: seq<ListElem>, b: seq<ListElem>): seq<ListElem> {
    if a == [] then b
    else if b == [] then a
    else if !Lt(less, b[0], a[0]) then [a[0]] + Merge(less, a[1..], b)
    else [b[0]] + Merge(less, a, b[1..])
  }

  lemma {:induction false} MergeMultiset(less: Less, a: seq<ListElem>, b: seq<ListElem>)
    ensures multiset(Merge(less, a, b)) == multiset(a) + multiset(b)
  {
    if a != [] && b != [] {
      if !Lt(less, b[0], a[0]) {
        MergeMultiset(less, a[1..], b);
        assert a == [a[0]] + a[1..];
      } else {
        MergeMultiset(less, a, b[1..]);
        assert b == [b[0]] + b[1..];
      }
    }
  }

  lemma InEither(s: seq<ListElem>, a: seq<ListElem>, b: seq<ListElem>)
    requires multiset(s) == multiset(a) + multiset(b)
    ensures |s| == |a| + |b|
    ensures forall x :: x in s <==> x in a || x in b
  {
    assert multiset(a + b) == multiset(a) + multiset(b);
    SameElements(s, a + b);
  }

  lemma SortedCons(less: Less, x: ListElem, s: seq<ListElem>)
    requires Sorted(less, s) && forall y | y in s :: !Lt(less, y, x)
    ensures Sorted(less, [x] + s)
  {
    forall i, j | 0 <= i < j < |s| + 1 ensures !Lt(less, ([x] + s)[j], ([x] + s)[i]) {
      assert ([x] + s)[j] == s[j - 1];
      assert i > 0 ==> ([x] + s)[i] == s[i - 1];
    }
  }

  lemma SortedHead(less: Less, s: seq<ListElem>)
    requires StrictWeak(less) && Sorted(less, s) && s != []
    ensures Sorted(less, s[1..])
    ensures forall y | y in s :: !Lt(less, y, s[0])
  {
    forall y | y in s ensures !Lt(less, y, s[0]) {
      var i :| 0 <= i < |s| && s[i] == y;
    }
  }

  lemma AtLeastVia(less: Less, y: ListElem, b: ListElem, x: ListElem)
    requires StrictWeak(less) && !Lt(less, y, b) && !Lt(less, b, x)
    ensures !Lt(less, y, x)
  {}

  // A head that is at most both heads is at most everything in the merge.
  lemma MergeAtLeast(less: Less, x: ListElem, a: seq<ListElem>, b: seq<ListElem>)
    requires StrictWeak(less)
    requires forall y | y in a :: !Lt(less, y, x)
    requires forall y | y in b :: !Lt(less, y, x)
    ensures forall y | y in Merge(less, a, b) :: !Lt(less, y, x)
  {
    MergeMultiset(less, a, b);
    InEither(Merge(less, a, b), a, b);
  }

  lemma {:induction false} MergeSorted(less: Less, a: seq<ListElem>, b: seq<ListElem>)
    requires StrictWeak(less) && Sorted(less, a) && Sorted(less, b)
    ensures Sorted(less, Merge(less, a, b))
  {
    if a != [] && b != [] {
      SortedHead(less, a);
      SortedHead(less, b);
      if !Lt(less, b[0], a[0]) {
        MergeSorted(less, a[1..], b);
        forall y | y in b ensures !Lt(less, y, a[0]) { AtLeastVia(less, y, b[0], a[0]); }
        MergeAtLeast(less, a[0], a[1..], b);
        SortedCons(less, a[0], Merge(less, a[1..], b));
      } else {
        MergeSorted(less, a, b[1..]);
        forall y | y in a ensures !Lt(less, y, b[0]) { AtLeastVia(less, y, a[0], b[0]); }
        MergeAtLeast(less, b[0], a, b[1..]);
        SortedCons(less, b[0], Merge(less, a, b[1..]));
      }
    }
  }

  // Nothing in s is tied with x when every element of s is greater than y and y is at least x.
  lemma {:induction false} NoTies(less: Less, x: ListElem, y: ListElem, s: seq<ListElem>)
    requires StrictWeak(less) && Tied(less, x, y) && forall z | z in s :: Lt(less, y, z)
    ensures Ties(less, x, s) == []
  {
    if s != [] {
      NoTies(less, x, y, s[1..]);
      assert s[0] in s && Lt(less, y, s[0]);
      assert less(x.addr, s[0].addr);
    }
  }

  lemma TiesNone(less: Less, x: ListElem)
    ensures Ties(less, x, []) == []
  {}

  // What moves before the rest of the first run is tied with nothing it passes.
  lemma PassedTies(less: Less, x: ListElem, h: ListElem, a: seq<ListElem>)
    requires StrictWeak(less) && Sorted(less, a) && a != [] && Lt(less, h, a[0])
    ensures Ties(less, x, [h]) + Ties(less, x, a) == Ties(less, x, a) + Ties(less, x, [h])
  {
    if Tied(less, x, h) {
      SortedHead(less, a);
      forall z | z in a ensures Lt(less, h, z) {
        assert !Lt(less, z, a[0]);
      }
      NoTies(less, x, h, a);
    }
  }

  // Merging two sorted runs keeps every tie in the order "first run, then second run".
  lemma {:induction false} MergeTies(less: Less, x: ListElem, a: seq<ListElem>, b: seq<ListElem>)
    requires StrictWeak(less) && Sorted(less, a)
    ensures Ties(less, x, Merge(less, a, b)) == Ties(less, x, a) + Ties(less, x, b)
  {
    hide Ties, StrictWeak;
    if a == [] || b == [] {
      TiesNone(less, x);
    } else {
      if !Lt(less, b[0], a[0]) {
        MergeTies(less, x, a[1..], b);
        assert a == [a[0]] + a[1..];
        TiesConcat(less, x, [a[0]], a[1..]);
        TiesConcat(less, x, [a[0]], Merge(less, a[1..], b));
      } else {
        MergeTies(less, x, a, b[1..]);
        assert b == [b[0]] + b[1..];
        TiesConcat(less, x, [b[0]], b[1..]);
        TiesConcat(less, x, [b[0]], Merge(less, a, b[1..]));
        PassedTies(less, x, b[0], a);
        var th, ta, tb := Ties(less, x, [b[0]]), Ties(less, x, a), Ties(less, x, b[1..]);
        assert th + (ta + tb) == th + ta + tb == ta + (th + tb);
      }
    }
  }

  // ---- Runs, and one pass of list_sort() ----

  // End of the maximal nondecreasing run that starts at i and ends not after e.
  function RunEnd(less: Less, s: seq<ListElem>, i: nat, e: nat): (m: nat)
    requires i < e <= |s|
    ensures i < m <= e
    decreases e - i
  {
    if i + 1 == e || Lt(less, s[i + 1], s[i]) then i + 1 else RunEnd(less, s, i + 1, e)
  }

  // It is a run, and it could not be longer.
  lemma {:induction false} RunEndMaximal(less: Less, s: seq<ListElem>, i: nat, e: nat)
    requires i < e <= |s|
    ensures NoDescent(less, s[i..RunEnd(less, s, i, e)])
    ensures RunEnd(less, s, i, e) < e ==> Lt(less, s[RunEnd(less, s, i, e)], s[RunEnd(less, s, i, e) - 1])
    decreases e - i
  {
    var m := RunEnd(less, s, i, e);
    if m > i + 1 {
      RunEndMaximal(less, s, i + 1, e);
      forall k, l | 0 <= k < l < m - i && l == k + 1 ensures !Lt(less, s[i..m][l], s[i..m][k]) {
        if k > 0 {
          assert s[i..m][k] == s[i + 1..m][k - 1] && s[i..m][l] == s[i + 1..m][l - 1];
        }
      }
    }
  }

  // Number of maximal nondecreasing runs in s: one more than the number of descents.
  function Runs(less: Less, s: seq<ListElem>): nat {
    if |s| <= 1 then |s|
    else Runs(less, s[1..]) + if Lt(less, s[1], s[0]) then 1 else 0
  }

  lemma {:induction false} RunsSplit(less: Less, s: seq<ListElem>, i: nat, e: nat)
    requires i < e <= |s|
    ensures Runs(less, s[i..e]) == 1 + Runs(less, s[RunEnd(less, s, i, e)..e])
    decreases e - i
  {
    assert i + 1 < e ==> s[i..e][1..] == s[i + 1..e];
    if RunEnd(less, s, i, e) > i + 1 {
      RunsSplit(less, s, i + 1, e);
    }
  }

  lemma {:induction false} RunsConcat(less: Less, s: seq<ListElem>, t: seq<ListElem>)
    ensures Runs(less, s + t) <= Runs(less, s) + Runs(less, t)
  {
    if s == [] {
      assert s + t == t;
    } else if |s| == 1 {
      if t == [] {
        assert s + t == s;
      } else {
        assert (s + t)[1..] == t;
      }
    } else {
      RunsConcat(less, s[1..], t);
      assert (s + t)[1..] == s[1..] + t;
    }
  }

  lemma {:induction false} NoDescentOneRun(less: Less, s: seq<ListElem>)
    requires NoDescent(less, s)
    ensures Runs(less, s) <= 1
  {
    if |s| > 1 {
      NoDescentOneRun(less, s[1..]);
    }
  }

  lemma {:induction false} OneRunNoDescent(less: Less, s: seq<ListElem>)
    requires Runs(less, s) <= 1
    ensures NoDescent(less, s)
  {
    if |s| > 1 {
      OneRunNoDescent(less, s[1..]);
      RunsPositive(less, s[1..]);
      forall i, j | 0 <= i < j < |s| && j == i + 1 ensures !Lt(less, s[j], s[i]) {
        if i > 0 {
          assert s[i] == s[1..][i - 1] && s[j] == s[1..][j - 1];
        }
      }
    }
  }

  lemma RunsPositive(less: Less, s: seq<ListElem>)
    ensures s != [] ==> Runs(less, s) > 0
  {}

  // One pass over elements i to e: adjacent runs are merged in pairs.
  function Pass(less: Less, s: seq<ListElem>, i: nat, e: nat): seq<ListElem>
    requires i <= e <= |s|
    decreases e - i
  {
    if i == e then [] else
    var m := RunEnd(less, s, i, e);
    if m == e then s[i..e] else
    var j := RunEnd(less, s, m, e);
    Merge(less, s[i..m], s[m..j]) + Pass(less, s, j, e)
  }

  // The final value of output_run_cnt in a pass.
  function PassRuns(less: Less, s: seq<ListElem>, i: nat, e: nat): nat
    requires i <= e <= |s|
    decreases e - i
  {
    if i == e then 0 else
    var m := RunEnd(less, s, i, e);
    if m == e then 1 else 1 + PassRuns(less, s, RunEnd(less, s, m, e), e)
  }

  // A pass writes ceil(R / 2) runs when it reads R, so output_run_cnt is exactly that.
  lemma {:induction false} PassHalvesCount(less: Less, s: seq<ListElem>, i: nat, e: nat)
    requires i <= e <= |s|
    ensures PassRuns(less, s, i, e) == (Runs(less, s[i..e]) + 1) / 2
    decreases e - i
  {
    if i < e {
      RunsSplit(less, s, i, e);
      var m := RunEnd(less, s, i, e);
      if m < e {
        RunsSplit(less, s, m, e);
        PassHalvesCount(less, s, RunEnd(less, s, m, e), e);
      }
    }
  }

  // ... and what it leaves has at most that many maximal runs: adjacent outputs may join up.
  lemma {:induction false} PassHalvesRuns(less: Less, s: seq<ListElem>, i: nat, e: nat)
    requires StrictWeak(less) && i <= e <= |s|
    ensures Runs(less, Pass(less, s, i, e)) <= (Runs(less, s[i..e]) + 1) / 2
  {
    PassHalvesCount(less, s, i, e);
    PassRunsBound(less, s, i, e);
  }

  lemma RunSorted(less: Less, s: seq<ListElem>, i: nat, e: nat)
    requires StrictWeak(less) && i < e <= |s|
    ensures Sorted(less, s[i..RunEnd(less, s, i, e)])
  {
    RunEndMaximal(less, s, i, e);
    NoDescentSorted(less, s[i..RunEnd(less, s, i, e)]);
  }

  lemma MergeOneRun(less: Less, a: seq<ListElem>, b: seq<ListElem>)
    requires StrictWeak(less) && Sorted(less, a) && Sorted(less, b)
    ensures Runs(less, Merge(less, a, b)) <= 1
  {
    MergeSorted(less, a, b);
    NoDescentOneRun(less, Merge(less, a, b));
  }

  lemma {:induction false} PassRunsBound(less: Less, s: seq<ListElem>, i: nat, e: nat)
    requires StrictWeak(less) && i <= e <= |s|
    ensures Runs(less, Pass(less, s, i, e)) <= PassRuns(less, s, i, e)
    decreases e - i
  {
    if i < e {
      RunSorted(less, s, i, e);
      var m := RunEnd(less, s, i, e);
      if m == e {
        NoDescentOneRun(less, s[i..e]);
      } else {
        RunSorted(less, s, m, e);
        var j := RunEnd(less, s, m, e);
        MergeOneRun(less, s[i..m], s[m..j]);
        PassRunsBound(less, s, j, e);
        RunsConcat(less, Merge(less, s[i..m], s[m..j]), Pass(less, s, j, e));
      }
    }
  }

  lemma ThreeParts(s: seq<ListElem>, i: nat, m: nat, j: nat, e: nat)
    requires i <= m <= j <= e <= |s|
    ensures s[i..e] == s[i..m] + s[m..j] + s[j..e]
  {}

  lemma MergeThenRestMultiset(less: Less, a: seq<ListElem>, b: seq<ListElem>, rest: seq<ListElem>, out: seq<ListElem>)
    requires multiset(out) == multiset(rest)
    ensures multiset(Merge(less, a, b) + out) == multiset(a + b + rest)
  {
    MergeMultiset(less, a, b);
  }

  lemma {:induction false} PassMultiset(less: Less, s: seq<ListElem>, i: nat, e: nat)
    requires i <= e <= |s|
    ensures multiset(Pass(less, s, i, e)) == multiset(s[i..e])
    decreases e - i
  {
    if i < e {
      var m := RunEnd(less, s, i, e);
      if m < e {
        var j := RunEnd(less, s, m, e);
        PassMultiset(less, s, j, e);
        MergeThenRestMultiset(less, s[i..m], s[m..j], s[j..e], Pass(less, s, j, e));
        ThreeParts(s, i, m, j, e);
      }
    }
  }

  // The two runs of one merge step, followed by the rest of the list.
  lemma MergeThenRestTies(less: Less, x: ListElem, a: seq<ListElem>, b: seq<ListElem>, rest: seq<ListElem>, out: seq<ListElem>)
    requires StrictWeak(less) && Sorted(less, a)
    requires Ties(less, x, out) == Ties(less, x, rest)
    ensures Ties(less, x, Merge(less, a, b) + out) == Ties(less, x, a + b + rest)
  {
    MergeTies(less, x, a, b);
    TiesConcat(less, x, a, b);
    TiesConcat(less, x, Merge(less, a, b), out);
    TiesConcat(less, x, a + b, rest);
  }

  lemma {:induction false} PassTies(less: Less, x: ListElem, s: seq<ListElem>, i: nat, e: nat)
    requires StrictWeak(less) && i <= e <= |s|
    ensures Ties(less, x, Pass(less, s, i, e)) == Ties(less, x, s[i..e])
    decreases e - i
  {
    if i < e {
      var m := RunEnd(less, s, i, e);
      if m < e {
        var j := RunEnd(less, s, m, e);
        RunSorted(less, s, i, e);
        PassTies(less, x, s, j, e);
        MergeThenRestTies(less, x, s[i..m], s[m..j], s[j..e], Pass(less, s, j, e));
        ThreeParts(s, i, m, j, e);
      }
    }
  }

  // ---- list_sort() ----

  function WholePass(less: Less, s: seq<ListElem>): seq<ListElem> {
    Pass(less, s, 0, |s|)
  }

  lemma WholePassFacts(less: Less, s: seq<ListElem>)
    requires StrictWeak(less)
    ensures PassRuns(less, s, 0, |s|) == (Runs(less, s) + 1) / 2
    ensures Runs(less, WholePass(less, s)) <= (Runs(less, s) + 1) / 2
    ensures Stable(less, s, WholePass(less, s))
  {
    assert s[0..|s|] == s;
    PassHalvesCount(less, s, 0, |s|);
    PassHalvesRuns(less, s, 0, |s|);
    PassMultiset(less, s, 0, |s|);
    forall x | x in s ensures Ties(less, x, s) == Ties(less, x, WholePass(less, s)) {
      PassTies(less, x, s, 0, |s|);
    }
  }

  ghost function Sort(less: Less, s: seq<ListElem>): (t: seq<ListElem>)
    requires StrictWeak(less)
    decreases Runs(less, s)
  {
    WholePassFacts(less, s);
    if PassRuns(less, s, 0, |s|) <= 1 then WholePass(less, s) else Sort(less, WholePass(less, s))
  }

  // The passes end, and leave the stable sorted permutation of what the list held.
  lemma {:induction false} SortIsStableSort(less: Less, s: seq<ListElem>)
    requires StrictWeak(less)
    ensures StableSortOf(less, s, Sort(less, s))
    decreases Runs(less, s)
  {
    var p := WholePass(less, s);
    WholePassFacts(less, s);
    if PassRuns(less, s, 0, |s|) <= 1 {
      OneRunNoDescent(less, p);
      NoDescentSorted(less, p);
    } else {
      SortIsStableSort(less, p);
      StableTransitive(less, s, p, Sort(less, p));
    }
  }

  // ---- How many comparisons list_sort() makes ----

  function RunCost(less: Less, s: seq<ListElem>, i: nat, e: nat): nat
    requires i < e <= |s|
  {
    var m := RunEnd(less, s, i, e);
    if m == e then m - i - 1 else m - i
  }

  function MergeCost(less: Less, a: seq<ListElem>, b: seq<ListElem>): (c: nat)
    ensures c <= |a| + |b|
  {
    if a == [] || b == [] then 0
    else if !Lt(less, b[0], a[0]) then 1 + MergeCost(less, a[1..], b)
    else 1 + MergeCost(less, a, b[1..])
  }

  function PassCost(less: Less, s: seq<ListElem>, i: nat, e: nat): (c: nat)
    requires i <= e <= |s|
    ensures c <= 2 * (e - i)
    decreases e - i
  {
    if i == e then 0 else
    var m := RunEnd(less, s, i, e);
    if m == e then RunCost(less, s, i, e) else
    var j := RunEnd(less, s, m, e);
    RunCost(less, s, i, e) + RunCost(less, s, m, e) + MergeCost(less, s[i..m], s[m..j]) + PassCost(less, s, j, e)
  }

  ghost function SortCost(less: Less, s: seq<ListElem>): nat
    requires StrictWeak(less)
    decreases Runs(less, s)
  {
    WholePassFacts(less, s);
    PassCost(less, s, 0, |s|) + if PassRuns(less, s, 0, |s|) <= 1 then 0 else SortCost(less, WholePass(less, s))
  }

  // The least n with 2^n at least r.
  function CeilLog2(r: nat): (n: nat)
    ensures r <= Pow2(n)
    ensures n > 0 ==> Pow2(n - 1) < r
  {
    if r <= 1 then 0 else
    var n := CeilLog2((r + 1) / 2);
    assert n > 0 ==> Pow2(n) == 2 * Pow2(n - 1);
    n + 1
  }

  lemma {:induction false} CeilLog2Monotone(r: nat, q: nat)
    requires r <= q
    ensures CeilLog2(r) <= CeilLog2(q)
  {
    if r > 1 {
      CeilLog2Monotone((r + 1) / 2, (q + 1) / 2);
    }
  }

  // max(1, ceil(lg r)): how many passes r runs may take.
  function Passes(r: nat): nat {
    if r <= 2 then 1 else CeilLog2(r)
  }

  lemma FewerPasses(q: nat, r: nat)
    requires r > 2 && q <= (r + 1) / 2
    ensures Passes(q) + 1 <= Passes(r)
  {
    CeilLog2Monotone(q, (r + 1) / 2);
    assert CeilLog2(r) == 1 + CeilLog2((r + 1) / 2);
    assert (r + 1) / 2 >= 2;
    assert CeilLog2((r + 1) / 2) >= 1;
  }

  // n elements in R runs are sorted with at most 2n * max(1, ceil(lg R)) comparisons.
  lemma {:induction false} SortCostBound(less: Less, s: seq<ListElem>)
    requires StrictWeak(less)
    ensures SortCost(less, s) <= 2 * |s| * Passes(Runs(less, s))
    decreases Runs(less, s)
  {
    var r := Runs(less, s);
    WholePassFacts(less, s);
    if PassRuns(less, s, 0, |s|) > 1 {
      var p := WholePass(less, s);
      SortCostBound(less, p);
      SameElements(s, p);
      FewerPasses(Runs(less, p), r);
      OneMorePass(2 * |s|, PassCost(less, s, 0, |s|), SortCost(less, p), Passes(Runs(less, p)), Passes(r));
    } else {
      OneMorePass(2 * |s|, PassCost(less, s, 0, |s|), 0, 0, Passes(r));
    }
  }

  lemma OneMorePass(k: nat, pass: nat, rest: nat, a: nat, b: nat)
    requires pass <= k && rest <= k * a && a + 1 <= b
    ensures pass + rest <= k * b
  {
    assert k * (a + 1) <= k * b;
  }

  // One turn of a pass, from k: the runs [k, m) and [m, j) are merged and the pass goes on from j.
  lemma PassUnfold(less: Less, s: seq<ListElem>, k: nat, m: nat, j: nat)
    requires k < |s| && m == RunEnd(less, s, k, |s|) < |s| && j == RunEnd(less, s, m, |s|)
    ensures Pass(less, s, k, |s|) == Merge(less, s[k..m], s[m..j]) + Pass(less, s, j, |s|)
  {
    hide Merge, RunEnd;
  }

  lemma PassRunsUnfold(less: Less, s: seq<ListElem>, k: nat, m: nat, j: nat)
    requires k < |s| && m == RunEnd(less, s, k, |s|) < |s| && j == RunEnd(less, s, m, |s|)
    ensures PassRuns(less, s, k, |s|) == 1 + PassRuns(less, s, j, |s|)
  {
    hide RunEnd;
  }

  lemma PassCostUnfold(less: Less, s: seq<ListElem>, k: nat, m: nat, j: nat)
    requires k < |s| && m == RunEnd(less, s, k, |s|) < |s| && j == RunEnd(less, s, m, |s|)
    ensures PassCost(less, s, k, |s|) ==
            RunCost(less, s, k, |s|) + RunCost(less, s, m, |s|) + MergeCost(less, s[k..m], s[m..j]) + PassCost(less, s, j, |s|)
  {
    hide RunEnd, RunCost, MergeCost;
  }

  // A run reads the same wherever its elements stand.
  lemma {:induction false} RunElsewhere(less: Less, c: seq<ListElem>, i: nat, e: nat, s: seq<ListElem>, k: nat)
    requires i < e <= |c| && k < |s| && c[i..e] == s[k..]
    ensures RunEnd(less, c, i, e) - i == RunEnd(less, s, k, |s|) - k
    ensures RunCost(less, c, i, e) == RunCost(less, s, k, |s|)
    decreases e - i
  {
    assert |c[i..e]| == e - i && |s[k..]| == |s| - k;
    assert c[i] == c[i..e][0] == s[k..][0] == s[k];
    if i + 1 < e {
      assert c[i + 1] == c[i..e][1] == s[k..][1] == s[k + 1];
      assert c[i + 1..e] == c[i..e][1..] == s[k..][1..] == s[k + 1..];
      RunElsewhere(less, c, i + 1, e, s, k + 1);
    }
  }

  // ---- list_insert_ordered(), list_reverse(), list_unique() ----

  // First position from i on whose element is greater than x.
  function InsertPoint(less: Less, s: seq<ListElem>, x: ListElem, i: nat): (p: nat)
    requires i <= |s|
    ensures i <= p <= |s|
    ensures forall k | i <= k < p :: !Lt(less, x, s[k])
    ensures p < |s| ==> Lt(less, x, s[p])
    decreases |s| - i
  {
    if i == |s| || Lt(less, x, s[i]) then i else InsertPoint(less, s, x, i + 1)
  }

  function InsertOrdered(less: Less, s: seq<ListElem>, x: ListElem): seq<ListElem> {
    var p := InsertPoint(less, s, x, 0);
    s[..p] + [x] + s[p..]
  }

  // Ordered insertion into a sorted list is what appending and sorting stably would give.
  lemma InsertOrderedIsStableSort(less: Less, s: seq<ListElem>, x: ListElem)
    requires StrictWeak(less) && Sorted(less, s)
    ensures StableSortOf(less, s + [x], InsertOrdered(less, s, x))
  {
    hide StrictWeak, Sorted, Lt, InsertPoint, Ties;
    var p := InsertPoint(less, s, x, 0);
    var a, b, t := s[..p], s[p..], InsertOrdered(less, s, x);
    assert s == a + b;
    InsertedBetween(less, s, x);
    InsertedSorted(less, s, p, x);
    forall y | y in s + [x] ensures Ties(less, y, s + [x]) == Ties(less, y, t) {
      InsertedTies(less, y, a, x, b);
    }
  }

  // Everything before the place of insertion is at most x, everything after it greater.
  lemma InsertedBetween(less: Less, s: seq<ListElem>, x: ListElem)
    requires StrictWeak(less) && Sorted(less, s)
    ensures var p := InsertPoint(less, s, x, 0);
            && (forall k | 0 <= k < p :: !Lt(less, x, s[k]))
            && (forall k | p <= k < |s| :: Lt(less, x, s[k]))
  {
    hide InsertPoint;
    var p := InsertPoint(less, s, x, 0);
    forall k | p <= k < |s| ensures Lt(less, x, s[k]) {
      assert k > p ==> !Lt(less, s[k], s[p]);
    }
  }

  lemma InsertedSorted(less: Less, s: seq<ListElem>, p: nat, x: ListElem)
    requires StrictWeak(less) && Sorted(less, s) && p <= |s|
    requires forall k | 0 <= k < p :: !Lt(less, x, s[k])
    requires forall k | p <= k < |s| :: Lt(less, x, s[k])
    ensures Sorted(less, s[..p] + [x] + s[p..])
  {
    var t := s[..p] + [x] + s[p..];
    forall i, j | 0 <= i < j < |t| ensures !Lt(less, t[j], t[i]) {
      var a, b := if i < p then i else i - 1, if j < p then j else j - 1;
      assert i != p ==> t[i] == s[a];
      assert j != p ==> t[j] == s[b];
    }
  }

  lemma InsertedTies(less: Less, y: ListElem, a: seq<ListElem>, x: ListElem, b: seq<ListElem>)
    requires StrictWeak(less) && forall z | z in b :: Lt(less, x, z)
    ensures Ties(less, y, a + b + [x]) == Ties(less, y, a + [x] + b)
  {
    TiesConcat(less, y, a, b);
    TiesConcat(less, y, a + b, [x]);
    TiesConcat(less, y, a, [x]);
    TiesConcat(less, y, a + [x], b);
    if Tied(less, y, x) {
      NoTies(less, y, x, b);
    }
  }

  function Reversed<T>(s: seq<T>): (t: seq<T>)
    ensures |t| == |s|
    ensures forall i | 0 <= i < |s| :: t[i] == s[|s| - 1 - i]
  {
    if s == [] then [] else Reversed(s[1..]) + [s[0]]
  }

  lemma ReverseTwice<T>(s: seq<T>)
    ensures Reversed(Reversed(s)) == s
  {
    assert forall i | 0 <= i < |s| :: Reversed(Reversed(s))[i] == s[i];
  }

  // What list_unique() keeps of s when the element kept last is "kept".
  function UniquesAfter(less: Less, kept: ListElem, s: seq<ListElem>): seq<ListElem> {
    if s == [] then []
    else if Tied(less, kept, s[0]) then UniquesAfter(less, kept, s[1..])
    else [s[0]] + UniquesAfter(less, s[0], s[1..])
  }

  function DuplicatesAfter(less: Less, kept: ListElem, s: seq<ListElem>): seq<ListElem> {
    if s == [] then []
    else if Tied(less, kept, s[0]) then [s[0]] + DuplicatesAfter(less, kept, s[1..])
    else DuplicatesAfter(less, s[0], s[1..])
  }

  function Uniques(less: Less, s: seq<ListElem>): seq<ListElem> {
    if s == [] then [] else [s[0]] + UniquesAfter(less, s[0], s[1..])
  }

  function Duplicates(less: Less, s: seq<ListElem>): seq<ListElem> {
    if s == [] then [] else DuplicatesAfter(less, s[0], s[1..])
  }

  // The elements from place k on that differ from the one before them, and those that do not.
  function FirstsFrom(less: Less, s: seq<ListElem>, k: nat): seq<ListElem>
    requires 0 < k <= |s|
    decreases |s| - k
  {
    if k == |s| then []
    else (if Tied(less, s[k - 1], s[k]) then [] else [s[k]]) + FirstsFrom(less, s, k + 1)
  }

  function RepeatsFrom(less: Less, s: seq<ListElem>, k: nat): seq<ListElem>
    requires 0 < k <= |s|
    decreases |s| - k
  {
    if k == |s| then []
    else (if Tied(less, s[k - 1], s[k]) then [s[k]] else []) + RepeatsFrom(less, s, k + 1)
  }

  lemma {:induction false} UniqueAfterNeighbours(less: Less, kept: ListElem, s: seq<ListElem>, k: nat)
    requires StrictWeak(less) && 0 < k <= |s| && Tied(less, kept, s[k - 1])
    ensures UniquesAfter(less, kept, s[k..]) == FirstsFrom(less, s, k)
    ensures DuplicatesAfter(less, kept, s[k..]) == RepeatsFrom(less, s, k)
    decreases |s| - k
  {
    if k < |s| {
      var t := s[k..];
      assert t[0] == s[k] && t[1..] == s[k + 1..];
      TiedThrough(less, kept, s[k - 1], s[k]);
      UniqueAfterNeighbours(less, if Tied(less, kept, s[k]) then kept else s[k], s, k + 1);
    }
  }

  lemma TiedThrough(less: Less, a: ListElem, b: ListElem, c: ListElem)
    requires StrictWeak(less) && Tied(less, a, b)
    ensures Tied(less, a, c) <==> Tied(less, b, c)
    ensures Tied(less, c, c)
  {}

  // On every list, sorted or not, exactly the elements that tie with the one before them are taken out.
  lemma UniqueByNeighbours(less: Less, s: seq<ListElem>)
    requires StrictWeak(less) && s != []
    ensures Uniques(less, s) == [s[0]] + FirstsFrom(less, s, 1)
    ensures Duplicates(less, s) == RepeatsFrom(less, s, 1)
  {
    TiedThrough(less, s[0], s[0], s[0]);
    UniqueAfterNeighbours(less, s[0], s, 1);
  }

  // No element is lost or made up: each is either kept or a duplicate.
  lemma {:induction false} UniquesConserve(less: Less, kept: ListElem, s: seq<ListElem>)
    ensures multiset(UniquesAfter(less, kept, s)) + multiset(DuplicatesAfter(less, kept, s)) == multiset(s)
  {
    if s != [] {
      assert s == [s[0]] + s[1..];
      if Tied(less, kept, s[0]) {
        UniquesConserve(less, kept, s[1..]);
      } else {
        UniquesConserve(less, s[0], s[1..]);
      }
    }
  }

  lemma UniqueConserves(less: Less, s: seq<ListElem>)
    ensures multiset(Uniques(less, s)) + multiset(Duplicates(less, s)) == multiset(s)
  {
    if s != [] {
      UniquesConserve(less, s[0], s[1..]);
      assert s == [s[0]] + s[1..];
    }
  }

  // Of each group of ties in a sorted list exactly the first element is kept.
  lemma {:induction false} UniquesAfterTies(less: Less, kept: ListElem, s: seq<ListElem>, x: ListElem)
    requires StrictWeak(less) && Sorted(less, [kept] + s)
    ensures Ties(less, x, [kept] + UniquesAfter(less, kept, s)) ==
            if Ties(less, x, [kept] + s) == [] then [] else [Ties(less, x, [kept] + s)[0]]
  {
    if s != [] {
      assert [kept] + s == [kept] + ([s[0]] + s[1..]);
      TiesConcat(less, x, [kept], s);
      TiesConcat(less, x, [kept], UniquesAfter(less, kept, s));
      TiesConcat(less, x, [s[0]], s[1..]);
      assert s == [s[0]] + s[1..];
      if Tied(less, kept, s[0]) {
        TiedSkip(less, kept, s);
        UniquesAfterTies(less, kept, s[1..], x);
        TiesConcat(less, x, [kept], s[1..]);
      } else {
        SortedTail(less, kept, s);
        UniquesAfterTies(less, s[0], s[1..], x);
        if Tied(less, x, kept) {
          KeptIsAlone(less, kept, s);
          NoTies(less, x, kept, s);
        }
      }
    }
  }

  lemma TiedSkip(less: Less, kept: ListElem, s: seq<ListElem>)
    requires StrictWeak(less) && s != [] && Sorted(less, [kept] + s)
    ensures Sorted(less, [kept] + s[1..])
  {
    var t, u := [kept] + s, [kept] + s[1..];
    forall i, j | 0 <= i < j < |u| ensures !Lt(less, u[j], u[i]) {
      assert u[j] == t[j + 1] && u[i] == t[if i == 0 then 0 else i + 1];
    }
  }

  lemma SortedTail(less: Less, kept: ListElem, s: seq<ListElem>)
    requires s != [] && Sorted(less, [kept] + s)
    ensures Sorted(less, [s[0]] + s[1..])
  {
    assert [s[0]] + s[1..] == ([kept] + s)[1..];
  }

  lemma KeptIsAlone(less: Less, kept: ListElem, s: seq<ListElem>)
    requires StrictWeak(less) && s != [] && Sorted(less, [kept] + s) && !Tied(less, kept, s[0])
    ensures forall z | z in s :: Lt(less, kept, z)
  {
    var t := [kept] + s;
    assert t[1] == s[0] && t[0] == kept && !Lt(less, t[1], t[0]);
    forall z | z in s ensures Lt(less, kept, z) {
      var i :| 0 <= i < |s| && s[i] == z;
      assert t[i + 1] == z;
      assert !Lt(less, z, s[0]);
    }
  }

  lemma UniqueKeepsFirsts(less: Less, s: seq<ListElem>, x: ListElem)
    requires StrictWeak(less) && Sorted(less, s)
    ensures Ties(less, x, Uniques(less, s)) == if Ties(less, x, s) == [] then [] else [Ties(less, x, s)[0]]
  {
    if s != [] {
      assert s == [s[0]] + s[1..];
      UniquesAfterTies(less, s[0], s[1..], x);
    }
  }
}
