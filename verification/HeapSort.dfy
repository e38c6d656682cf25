// sort(), heapify() and binary_search() of proj-pregame/src/lib/stdlib.c on arrays of any element type.
module HeapSort {
  import opened Common

  // A strcmp()-type result: negative, zero or positive.
  type Compare<!T> = (T, T) -> int

  // The comparison is the sign of a total preorder.
  ghost predicate Consistent<T(!new)>(compare: Compare<T>) {
    && (forall a, b :: compare(a, b) > 0 <==> compare(b, a) < 0)
    && (forall a, b, c :: compare(a, b) <= 0 && compare(b, c) <= 0 ==> compare(a, c) <= 0)
  }

  ghost predicate Sorted<T(!new)>(compare: Compare<T>, s: seq<T>) {
    forall i, j | 0 <= i < j < |s| :: compare(s[i], s[j]) <= 0
  }

  // ---- Heaps, with 1-based places ----

  // The element at place c is not larger than the one at place p.
  ghost predicate Under<T(!new)>(compare: Compare<T>, s: seq<T>, c: int, p: int)
    requires 1 <= c <= |s| && 1 <= p <= |s|
  {
    compare(s[c - 1], s[p - 1]) <= 0
  }

  // Among places 1..cnt, every one whose parent is at least lo, and is not `hole`, is under its parent.
  ghost predicate HeapBut<T(!new)>(compare: Compare<T>, s: seq<T>, lo: int, cnt: int, hole: int)
    requires cnt <= |s|
  {
    forall c | 2 <= c <= cnt && lo <= c / 2 && c / 2 != hole :: Under(compare, s, c, c / 2)
  }

  ghost predicate Heap<T(!new)>(compare: Compare<T>, s: seq<T>, lo: int, cnt: int)
    requires cnt <= |s|
  {
    HeapBut(compare, s, lo, cnt, 0)
  }

  // The children of the hole are under the hole's parent.
  ghost predicate Bridged<T(!new)>(compare: Compare<T>, s: seq<T>, lo: int, cnt: int, hole: int)
    requires cnt <= |s|
  {
    forall c | 2 <= c <= cnt && c / 2 == hole && 1 <= lo <= hole / 2 :: Under(compare, s, c, hole / 2)
  }

  function Swapped<T>(s: seq<T>, i: int, j: int): (r: seq<T>)
    requires 1 <= i <= |s| && 1 <= j <= |s|
    ensures |r| == |s| && multiset(r) == multiset(s)
  {
    s[i - 1 := s[j - 1]][j - 1 := s[i - 1]]
  }

  // The child of i that heapify() picks, or i itself.
  ghost predicate Largest<T(!new)>(compare: Compare<T>, s: seq<T>, cnt: int, i: int, max: int)
    requires 1 <= i <= cnt <= |s|
  {
    && (max == i || ((max == 2 * i || max == 2 * i + 1) && max <= cnt))
    && (2 * i <= cnt ==> Under(compare, s, 2 * i, max))
    && (2 * i + 1 <= cnt ==> Under(compare, s, 2 * i + 1, max))
    && (max != i ==> compare(s[max - 1], s[i - 1]) > 0)
  }

  // Floating the larger child up moves the hole down.
  lemma FloatDown<T(!new)>(compare: Compare<T>, s: seq<T>, lo: int, cnt: int, i: int, max: int)
    requires Consistent(compare) && 1 <= lo <= i <= cnt <= |s|
    requires HeapBut(compare, s, lo, cnt, i) && Bridged(compare, s, lo, cnt, i)
    requires Largest(compare, s, cnt, i, max) && max != i
    ensures HeapBut(compare, Swapped(s, i, max), lo, cnt, max) && Bridged(compare, Swapped(s, i, max), lo, cnt, max)
  {
    hide Consistent;
    var r := Swapped(s, i, max);
    assert compare(s[i - 1], s[max - 1]) <= 0 by { Reverse(compare, s[max - 1], s[i - 1]); }
    forall c | 2 <= c <= cnt && lo <= c / 2 && c / 2 != max ensures Under(compare, r, c, c / 2) {
      if c / 2 == i {
        assert c == 2 * i || c == 2 * i + 1;
        assert Under(compare, s, c, max);
      } else if c == i {
        assert Under(compare, s, max, i / 2);
      } else {
        assert Under(compare, s, c, c / 2);
      }
    }
    forall c | 2 <= c <= cnt && c / 2 == max && 1 <= lo <= max / 2 ensures Under(compare, r, c, max / 2) {
      assert max / 2 == i;
      assert Under(compare, s, c, max);
    }
  }

  lemma Reverse<T(!new)>(compare: Compare<T>, a: T, b: T)
    requires Consistent(compare)
    ensures compare(a, b) > 0 ==> compare(b, a) <= 0
    ensures compare(a, b) <= 0 || compare(b, a) <= 0
  {}

  lemma Chain<T(!new)>(compare: Compare<T>, a: T, b: T, c: T)
    requires Consistent(compare) && compare(a, b) <= 0 && compare(b, c) <= 0
    ensures compare(a, c) <= 0
  {}

  // When the hole holds the largest, there is no hole.
  lemma FloatEnds<T(!new)>(compare: Compare<T>, s: seq<T>, lo: int, cnt: int, i: int)
    requires 1 <= lo <= i <= cnt <= |s| && HeapBut(compare, s, lo, cnt, i) && Largest(compare, s, cnt, i, i)
    ensures Heap(compare, s, lo, cnt)
  {
    forall c | 2 <= c <= cnt && lo <= c / 2 ensures Under(compare, s, c, c / 2) {
      if c / 2 == i {
        assert c == 2 * i || c == 2 * i + 1;
      }
    }
  }

  // The root of a heap is a maximum.
  lemma {:induction false} RootIsMax<T(!new)>(compare: Compare<T>, s: seq<T>, cnt: int, c: int)
    requires Consistent(compare) && 1 <= c <= cnt <= |s| && Heap(compare, s, 1, cnt)
    ensures Under(compare, s, c, 1)
    decreases c
  {
    if c == 1 {
      Reverse(compare, s[0], s[0]);
    } else {
      assert Under(compare, s, c, c / 2);
      RootIsMax(compare, s, cnt, c / 2);
      Chain(compare, s[c - 1], s[c / 2 - 1], s[0]);
    }
  }

  // ---- The in-place algorithm ----

  // The result is s with its first cnt elements rearranged.
  ghost predicate Rearranged<T>(s: seq<T>, r: seq<T>, cnt: int)
    requires 0 <= cnt <= |s|
  {
    |r| == |s| && r[cnt..] == s[cnt..] && multiset(r[..cnt]) == multiset(s[..cnt])
  }

  lemma SwapRearranges<T>(s: seq<T>, cnt: int, i: int, j: int)
    requires 1 <= i <= cnt <= |s| && 1 <= j <= cnt
    ensures Rearranged(s, Swapped(s, i, j), cnt)
  {
    var r := Swapped(s, i, j);
    assert r[..cnt] == Swapped(s[..cnt], i, j);
  }

  lemma RearrangedTwice<T>(s: seq<T>, q: seq<T>, r: seq<T>, cnt: int)
    requires 0 <= cnt <= |s| && Rearranged(s, q, cnt) && Rearranged(q, r, cnt)
    ensures Rearranged(s, r, cnt)
  {}

  method DoSwap<T>(a: array<T>, i: int, j: int)
    requires 1 <= i <= a.Length && 1 <= j <= a.Length
    modifies a
    ensures a[..] == Swapped(old(a[..]), i, j)
  {
    var t := a[i - 1];
    a[i - 1] := a[j - 1];
    a[j - 1] := t;
  }

  // One comparison of heapify(): the larger of i and its children.
  method PickLargest<T(!new)>(a: array<T>, cnt: int, i: int, compare: Compare<T>) returns (max: int)
    requires Consistent(compare) && 1 <= i <= cnt <= a.Length
    ensures Largest(compare, a[..], cnt, i, max)
  {
    hide Consistent;
    var left, right := 2 * i, 2 * i + 1;
    max := i;
    Reverse(compare, a[i - 1], a[i - 1]);
    if left <= cnt {
      Reverse(compare, a[left - 1], a[i - 1]);
      Reverse(compare, a[left - 1], a[left - 1]);
      if compare(a[left - 1], a[max - 1]) > 0 {
        max := left;
      }
    }
    if right <= cnt {
      Reverse(compare, a[right - 1], a[max - 1]);
      Reverse(compare, a[right - 1], a[right - 1]);
      if compare(a[right - 1], a[max - 1]) > 0 {
        PickRight(compare, a[i - 1], a[left - 1], a[right - 1], a[max - 1]);
        max := right;
      }
    }
  }

  lemma PickRight<T(!new)>(compare: Compare<T>, i: T, left: T, right: T, max: T)
    requires Consistent(compare) && compare(right, max) > 0 && compare(left, max) <= 0 && compare(i, max) <= 0
    ensures compare(left, right) <= 0 && compare(right, i) > 0
  {
    assert compare(max, right) <= 0;
    if compare(right, i) <= 0 {
      Chain(compare, right, i, max);
      assert false;
    }
  }

  // How many levels a heap of cnt elements has from place i down.
  function Levels(i: int, cnt: int): nat
    requires i > 0
    decreases cnt - i
  {
    if i > cnt then 0 else 1 + Levels(2 * i, cnt)
  }

  lemma {:induction false} LevelsFewer(i: int, j: int, cnt: int)
    requires 0 < i <= j
    ensures Levels(j, cnt) <= Levels(i, cnt)
    decreases cnt - i
  {
    if j <= cnt { LevelsFewer(2 * i, 2 * j, cnt); }
  }

  // A heap has logarithmically many levels.
  lemma {:induction false} LevelsLogarithmic(i: int, cnt: int)
    requires 0 < i <= cnt
    ensures Levels(i, cnt) > 0 && i * Pow2(Levels(i, cnt) - 1) <= cnt
    decreases cnt - i
  {
    if 2 * i <= cnt {
      LevelsLogarithmic(2 * i, cnt);
      var p := Pow2(Levels(2 * i, cnt) - 1);
      assert Pow2(Levels(i, cnt) - 1) == 2 * p;
      assert i * (2 * p) == 2 * i * p;
    } else {
      assert Levels(2 * i, cnt) == 0 && Pow2(0) == 1;
    }
  }

  // heapify(); `cost` counts the comparisons.
  method Heapify<T(!new)>(a: array<T>, i0: int, cnt: int, compare: Compare<T>) returns (ghost cost: nat)
    requires Consistent(compare) && 1 <= i0 <= cnt <= a.Length
    requires Heap(compare, a[..], i0 + 1, cnt)
    modifies a
    ensures Heap(compare, a[..], i0, cnt)
    ensures Rearranged(old(a[..]), a[..], cnt)
    ensures cost <= 2 * Levels(i0, cnt)
  {
    hide Consistent, Heap, HeapBut, Bridged, Largest, Rearranged, Swapped;
    cost := 0;
    ghost var s := a[..];
    var i := i0;
    HoleStarts(compare, s, i0, cnt);
    while true
      invariant i0 <= i <= cnt
      invariant HeapBut(compare, a[..], i0, cnt, i) && Bridged(compare, a[..], i0, cnt, i)
      invariant Rearranged(s, a[..], cnt)
      invariant cost + 2 * Levels(i, cnt) <= 2 * Levels(i0, cnt)
      decreases cnt - i
    {
      var max := PickLargest(a, cnt, i, compare);
      cost := cost + (if 2 * i <= cnt then 1 else 0) + if 2 * i + 1 <= cnt then 1 else 0;
      LargestPlace(compare, a[..], cnt, i, max);
      if max == i {
        FloatEnds(compare, a[..], i0, cnt, i);
        break;
      }
      FloatDown(compare, a[..], i0, cnt, i, max);
      SwapRearranges(a[..], cnt, i, max);
      RearrangedTwice(s, a[..], Swapped(a[..], i, max), cnt);
      DoSwap(a, i, max);
      LevelsFewer(2 * i, max, cnt);
      i := max;
    }
  }

  lemma HoleStarts<T(!new)>(compare: Compare<T>, s: seq<T>, i: int, cnt: int)
    requires 1 <= i <= cnt <= |s| && Heap(compare, s, i + 1, cnt)
    ensures HeapBut(compare, s, i, cnt, i) && Bridged(compare, s, i, cnt, i) && Rearranged(s, s, cnt)
  {}

  lemma LargestPlace<T(!new)>(compare: Compare<T>, s: seq<T>, cnt: int, i: int, max: int)
    requires 1 <= i <= cnt <= |s| && Largest(compare, s, cnt, i, max)
    ensures max == i || i < 2 * i <= max <= cnt
  {}

  // Between turns of the second loop: a heap of i elements, none larger than the sorted rest.
  ghost predicate Partly<T(!new)>(compare: Compare<T>, s: seq<T>, i: int) {
    && 0 <= i <= |s| && Sorted(compare, s[i..])
    && forall x, y | x in s[..i] && y in s[i..] :: compare(x, y) <= 0
  }

  // sort(): a sorted permutation, in at most 3 n (1 + lg n) comparisons.
  method Sort<T(!new)>(a: array<T>, compare: Compare<T>) returns (ghost cost: nat)
    requires Consistent(compare)
    modifies a
    ensures Sorted(compare, a[..])
    ensures multiset(a[..]) == multiset(old(a[..]))
    ensures cost <= 3 * a.Length * Levels(1, a.Length)
  {
    hide Consistent, Heap, Rearranged, Partly, Sorted, Swapped, Levels, Times;
    ghost var h := Levels(1, a.Length);
    cost := 0;
    ghost var s := a[..];
    var cnt := a.Length;
    TimesNone(h);
    LeavesAreHeap(compare, s, cnt);
    WholeStarts(compare, s);
    var i := cnt / 2;
    while i > 0
      invariant 0 <= i <= cnt / 2 && Heap(compare, a[..], i + 1, cnt) && Rearranged(s, a[..], cnt)
      invariant cost <= 2 * Times(cnt / 2 - i, h)
    {
      ghost var q := a[..];
      ghost var c := Heapify(a, i, cnt, compare);
      LevelsFewer(1, i, cnt);
      OneMore(cnt / 2 - i, h);
      cost := cost + c;
      RearrangedTwice(s, q, a[..], cnt);
      i := i - 1;
    }
    PartlyStarts(compare, a[..]);
    i := cnt;
    while i > 1
      invariant 0 <= i <= cnt && Heap(compare, a[..], 1, i) && Partly(compare, a[..], i) && Rearranged(s, a[..], cnt)
      invariant cost <= 2 * Times(cnt / 2 + cnt - i, h)
    {
      ghost var q := a[..];
      SortTurn(compare, q, i);
      SwapRearranges(q, cnt, 1, i);
      DoSwap(a, 1, i);
      ghost var m := a[..];
      ghost var c := Heapify(a, 1, i - 1, compare);
      LevelsMore(1, i - 1, cnt);
      OneMore(cnt / 2 + cnt - i, h);
      cost := cost + c;
      PartlyKept(compare, m, a[..], i - 1);
      Widen(m, a[..], i - 1, cnt);
      RearrangedTwice(s, q, m, cnt);
      RearrangedTwice(s, m, a[..], cnt);
      i := i - 1;
    }
    SortEnds(compare, a[..], i);
    WholeEnds(s, a[..]);
    Scale(cnt, i, h);
  }

  function Times(k: nat, h: nat): nat { k * h }

  lemma TimesNone(h: nat)
    ensures Times(0, h) == 0
  {}

  lemma OneMore(k: nat, h: nat)
    ensures Times(k, h) + h == Times(k + 1, h)
  {}

  lemma Scale(cnt: nat, i: nat, h: nat)
    requires i <= cnt
    ensures 2 * Times(cnt / 2 + cnt - i, h) <= 3 * cnt * h
  {
    var k := 2 * (cnt / 2 + cnt - i);
    assert k <= 3 * cnt;
    assert k * h <= 3 * cnt * h;
  }

  lemma {:induction false} LevelsMore(i: int, n: int, cnt: int)
    requires 0 < i && n <= cnt
    ensures Levels(i, n) <= Levels(i, cnt)
    decreases n - i
  {
    if i <= n { LevelsMore(2 * i, n, cnt); }
  }

  lemma LeavesAreHeap<T(!new)>(compare: Compare<T>, s: seq<T>, cnt: int)
    requires cnt == |s|
    ensures Heap(compare, s, cnt / 2 + 1, cnt)
  {}

  lemma WholeStarts<T(!new)>(compare: Compare<T>, s: seq<T>)
    ensures Rearranged(s, s, |s|)
  {}

  lemma WholeEnds<T>(s: seq<T>, r: seq<T>)
    requires Rearranged(s, r, |s|)
    ensures multiset(r) == multiset(s)
  {
    assert r[..|s|] == r && s[..|s|] == s;
  }

  lemma PartlyStarts<T(!new)>(compare: Compare<T>, s: seq<T>)
    ensures Partly(compare, s, |s|)
  {}

  // Moving the root behind the heap: it is no larger than what is there, and no smaller than what is left.
  lemma SortTurn<T(!new)>(compare: Compare<T>, s: seq<T>, i: int)
    requires Consistent(compare) && 2 <= i <= |s| && Heap(compare, s, 1, i) && Partly(compare, s, i)
    ensures Partly(compare, Swapped(s, 1, i), i - 1)
    ensures Heap(compare, Swapped(s, 1, i), 2, i - 1)
  {
    hide Consistent;
    var r, root := Swapped(s, 1, i), s[0];
    assert r[i - 1] == root && r[i - 1..] == [root] + s[i..];
    assert root in s[..i] by { assert s[..i][0] == root; }
    assert Sorted(compare, r[i - 1..]) by {
      forall j | 0 <= j < |s| - i ensures compare(root, s[i..][j]) <= 0 { assert s[i..][j] in s[i..]; }
    }
    forall x | x in r[..i - 1] ensures compare(x, root) <= 0 && x in s[..i] {
      var k :| 0 <= k < i - 1 && r[k] == x;
      var c := if k == 0 then i else k + 1;
      assert x == s[c - 1] && x == s[..i][c - 1];
      RootIsMax(compare, s, i, c);
    }
    forall c | 2 <= c <= i - 1 && 2 <= c / 2 ensures Under(compare, r, c, c / 2) {
      assert Under(compare, s, c, c / 2);
    }
  }

  lemma PartlyKept<T(!new)>(compare: Compare<T>, s: seq<T>, r: seq<T>, i: int)
    requires Partly(compare, s, i) && Rearranged(s, r, i)
    ensures Partly(compare, r, i)
  {
    forall x | x in r[..i] ensures x in s[..i] {
      assert x in multiset(r[..i]);
      assert x in multiset(s[..i]);
    }
  }

  lemma Widen<T>(s: seq<T>, r: seq<T>, i: int, cnt: int)
    requires 0 <= i <= cnt <= |s| && Rearranged(s, r, i)
    ensures Rearranged(s, r, cnt)
  {
    assert s[..cnt] == s[..i] + s[i..][..cnt - i] && r[..cnt] == r[..i] + r[i..][..cnt - i];
    assert s[cnt..] == s[i..][cnt - i..] && r[cnt..] == r[i..][cnt - i..];
  }

  lemma SortEnds<T(!new)>(compare: Compare<T>, s: seq<T>, i: int)
    requires 0 <= i <= 1 && Partly(compare, s, i)
    ensures Sorted(compare, s)
  {
    if i == 1 {
      assert s == [s[0]] + s[1..] && s[0] in s[..1];
      forall j | 1 <= j < |s| ensures compare(s[0], s[j]) <= 0 { assert s[j] == s[1..][j - 1] && s[j] in s[1..]; }
      forall j, k | 1 <= j < k < |s| ensures compare(s[j], s[k]) <= 0 {
        assert s[1..][j - 1] == s[j] && s[1..][k - 1] == s[k];
      }
    } else {
      assert s[0..] == s;
    }
  }

  // ---- binary_search() ----

  // A match if there is one, for any sorted array.
  method BinarySearch<T(!new)>(key: T, s: seq<T>, compare: Compare<T>) returns (r: Option<nat>)
    requires Consistent(compare) && Sorted(compare, s)
    ensures r.Some? ==> r.value < |s| && compare(key, s[r.value]) == 0
    ensures r.None? <==> forall k | 0 <= k < |s| :: compare(key, s[k]) != 0
  {
    hide Consistent, Sorted;
    var first: nat, last: nat := 0, |s|;
    while first < last
      invariant first <= last <= |s|
      invariant forall k | 0 <= k < first :: compare(key, s[k]) > 0
      invariant forall k | last <= k < |s| :: compare(key, s[k]) < 0
    {
      var middle := first + (last - first) / 2;
      var cmp := compare(key, s[middle]);
      if cmp < 0 {
        forall k | middle <= k < |s| ensures compare(key, s[k]) < 0 { LessAfter(compare, s, key, middle, k); }
        last := middle;
      } else if cmp > 0 {
        forall k | 0 <= k <= middle ensures compare(key, s[k]) > 0 { GreaterBefore(compare, s, key, k, middle); }
        first := middle + 1;
      } else {
        return Some(middle);
      }
    }
    return None;
  }

  lemma LessAfter<T(!new)>(compare: Compare<T>, s: seq<T>, key: T, m: nat, k: nat)
    requires Consistent(compare) && Sorted(compare, s) && m <= k < |s| && compare(key, s[m]) < 0
    ensures compare(key, s[k]) < 0
  {}

  lemma GreaterBefore<T(!new)>(compare: Compare<T>, s: seq<T>, key: T, k: nat, m: nat)
    requires Consistent(compare) && Sorted(compare, s) && k <= m < |s| && compare(key, s[m]) > 0
    ensures compare(key, s[k]) > 0
  {}
}
