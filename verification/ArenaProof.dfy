// What the block allocator guarantees in every reachable state, and over pairs of calls.
module ArenaProof {
  import opened Common
  import opened Arena

  datatype Action = Allocate(size: nat, grant: Option<nat>) | Return(b: nat)

  ghost predicate Enabled(s: State, a: Action) {
    match a
    case Allocate(size, grant) => size < 0x1_0000_0000 && Grantable(s, size, grant)
    case Return(b) => b == 0 || b in s.live
  }

  ghost function Step(s: State, a: Action): (r: State)
    requires Inv(s) && Enabled(s, a)
    ensures Inv(r)
  {
    match a
    case Allocate(size, grant) => MallocInv(s, size, grant); Malloc(s, size, grant)
    case Return(b) => FreeInv(s, b); Free(s, b)
  }

  function Init(): (s: State)
    ensures Inv(s)
  {
    State([[], [], [], [], [], [], []], map[], map[])
  }

  // s is the outcome of some run of allocations and returns.
  ghost predicate Reachable(run: seq<Action>, s: State)
    decreases |run|
  {
    if run == [] then s == Init()
    else
      var n := |run| - 1;
      exists r :: Reachable(run[..n], r) && Inv(r) && Enabled(r, run[n]) && s == Step(r, run[n])
  }

  lemma {:induction false} ReachableInv(run: seq<Action>, s: State)
    requires Reachable(run, s)
    ensures Inv(s)
  {}

  // ---- Live blocks ----

  // A live block of a small arena is one of its slots.
  lemma LiveShape(s: State, b: nat) returns (i: nat)
    requires Inv(s) && b in s.live
    ensures var p := Page(b);
            && p in s.arenas && p % 4096 == 0 && LiveAt(s.arenas, b, s.live[b]) && b == p + b % 4096
            && var h := s.arenas[p];
               if h.desc.None? then b % 4096 == 12
               else h.desc.value < CLASSES && i < PerArena(h.desc.value) && b == Block(p, h.desc.value, i)
  {
    hide AllAccounted, InUse, FreeOk, Apart, PerArena, Offset;
    assert LiveAt(s.arenas, b, s.live[b]);
    var h := s.arenas[Page(b)];
    i := 0;
    if h.desc.Some? {
      i := OnArenaIndex(s.arenas, h.desc.value, b);
    }
  }

  // A live block lies inside its arena, behind the header.
  lemma LiveInside(s: State, b: nat)
    requires Inv(s) && b in s.live
    ensures var p := Page(b);
            && p in s.arenas && 0 < p && p + HEADER <= b
            && b + Extent(s.arenas, b) <= p + Span(s.arenas[p]) <= 0x1_0000_0000
            && Extent(s.arenas, b) > 0
  {
    hide Inv, PerArena, Offset, BlockSize, OnArena, Class, PageCount;
    var i := LiveShape(s, b);
    var h := s.arenas[Page(b)];
    InvArenas(s);
    hide ArenasOk;
    assert Span(h) > 0 && Page(b) + Span(h) <= 0x1_0000_0000 && Page(b) > 0 by { ArenaAt(s.arenas, Page(b)); }
    if h.desc.Some? {
      OffsetInside(h.desc.value, i);
      SizePositive(h.desc.value);
    }
  }

  lemma SizePositive(d: nat)
    ensures BlockSize(d) > 0
  {}

  lemma InvArenas(s: State)
    requires Inv(s)
    ensures ArenasOk(s.arenas) && |s.free| == CLASSES
  {}

  lemma ArenaAt(arenas: map<nat, Header>, a: nat)
    requires ArenasOk(arenas) && a in arenas
    ensures a > 0 && a % 4096 == 0 && Span(arenas[a]) > 0 && a + Span(arenas[a]) <= 0x1_0000_0000
  {}

  lemma ArenasApart(arenas: map<nat, Header>, a: nat, b: nat)
    requires ArenasOk(arenas) && a in arenas && b in arenas && a != b
    ensures Apart(a, Span(arenas[a]), b, Span(arenas[b]))
  {}

  // Live blocks do not overlap.
  lemma LiveApart(s: State, b: nat, c: nat)
    requires Inv(s) && b in s.live && c in s.live && b != c
    ensures Page(b) in s.arenas && Page(c) in s.arenas
    ensures b + Extent(s.arenas, b) <= c || c + Extent(s.arenas, c) <= b
  {
    hide Inv, PerArena, Offset, BlockSize, OnArena, Class, PageCount, ArenasOk, LiveAt, Page;
    LiveInside(s, b);
    LiveInside(s, c);
    var p, q := Page(b), Page(c);
    var i := LiveShape(s, b);
    var j := LiveShape(s, c);
    if p != q {
      InvArenas(s);
      ArenasApart(s.arenas, p, q);
    } else {
      assert s.arenas[p].desc.Some?;
      var d := s.arenas[p].desc.value;
      assert i != j;
      if i < j { OffsetApart(d, i, j); } else { OffsetApart(d, j, i); }
    }
  }

  // A live block is as large as was asked for exactly when adding the header did not wrap around.
  lemma LiveBigEnough(s: State, b: nat)
    requires Inv(s) && b in s.live
    ensures Page(b) in s.arenas
    ensures Extent(s.arenas, b) >= s.live[b] <==> s.live[b] + HEADER < 0x1_0000_0000
  {
    hide Inv, PerArena, OnArena, PageCount;
    var i := LiveShape(s, b);
    var size := s.live[b];
    if s.arenas[Page(b)].desc.None? {
      PageCountFacts(size);
    }
  }

  // The requests that wrap around are answered with a block of one page.
  lemma WrappedRequest(s: State, size: nat, grant: Option<nat>)
    requires Inv(s) && size < 0x1_0000_0000 && size + HEADER > 0x1_0000_0000
    requires Grantable(s, size, grant) && grant.Some?
    ensures var r := Malloc(s, size, grant);
            && r.live == s.live[grant.value + 12 := size]
            && r.arenas == s.arenas[grant.value := Header(None, 1)]
  {
    PageCountFacts(size);
  }

  // A request whose page count wraps to zero is never granted.
  lemma ZeroPagesRefused(s: State, size: nat, grant: Option<nat>)
    requires Inv(s) && Grantable(s, size, grant)
    requires 0x1_0000_0000 - 4107 <= size <= 0x1_0000_0000 - 12
    ensures Malloc(s, size, grant) == s && Answer(s, size, grant) == 0
  {
    PageCountFacts(size);
  }

  // Over every run: a block that a caller holds is inside its arena, as large as asked for unless the
  // request wrapped around, and apart from every other such block.
  lemma EveryRunSafe(run: seq<Action>, s: State, b: nat)
    requires Reachable(run, s) && b in s.live
    ensures Page(b) in s.arenas
    ensures Page(b) + HEADER <= b && b + Extent(s.arenas, b) <= Page(b) + Span(s.arenas[Page(b)])
    ensures Extent(s.arenas, b) >= s.live[b] <==> s.live[b] + HEADER < 0x1_0000_0000
    ensures forall c | c in s.live && c != b ::
              Page(c) in s.arenas && (b + Extent(s.arenas, b) <= c || c + Extent(s.arenas, c) <= b)
  {
    hide Inv, Page, Extent, Span, Reachable;
    ReachableInv(run, s);
    LiveInside(s, b);
    LiveBigEnough(s, b);
    forall c | c in s.live && c != b
      ensures Page(c) in s.arenas && (b + Extent(s.arenas, b) <= c || c + Extent(s.arenas, c) <= b)
    {
      LiveApart(s, b, c);
    }
  }

  // ---- Free lists and counts ----

  lemma {:induction false} CountIsCardinality(list: seq<nat>, a: nat, d: nat, n: nat)
    ensures FreeCount(list, a, d, n) == |set i: nat | i < n && Block(a, d, i) in list|
  {
    hide Block;
    if n > 0 {
      CountIsCardinality(list, a, d, n - 1);
      var before := set i: nat | i < n - 1 && Block(a, d, i) in list;
      var now := set i: nat | i < n && Block(a, d, i) in list;
      assert now == before + if Block(a, d, n - 1) in list then {n - 1} else {};
    }
  }

  ghost predicate CountedExactly(s: State, a: nat)
    requires a in s.arenas && s.arenas[a].desc.Some?
  {
    var d := s.arenas[a].desc.value;
    && d < CLASSES == |s.free|
    && s.arenas[a].count == |set i: nat | i < PerArena(d) && Block(a, d, i) in s.free[d]|
    && s.arenas[a].count < PerArena(d)
    && forall i: nat | i < PerArena(d) :: Block(a, d, i) in s.free[d] <==> Block(a, d, i) !in s.live
  }

  // free_cnt is the number of the arena's blocks that are on its descriptor's free list, and is never all
  // of them; every other block of the arena is live.
  lemma CountsExact(s: State, a: nat)
    requires Inv(s) && a in s.arenas && s.arenas[a].desc.Some?
    ensures CountedExactly(s, a)
  {
    hide Block, PerArena, FreeCount, LiveOk, Apart;
    assert Accounted(s.free, s.live, a, s.arenas[a]);
    var d := s.arenas[a].desc.value;
    CountIsCardinality(s.free[d], a, d, PerArena(d));
  }

  ghost predicate OwnedOnce(s: State, d: nat, k: nat)
    requires |s.free| == CLASSES && d < CLASSES && k < |s.free[d]|
  {
    && OnArena(s.arenas, d, s.free[d][k])
    && forall e, j | 0 <= e < CLASSES && 0 <= j < |s.free[e]| && s.free[e][j] == s.free[d][k] :: e == d && j == k
  }

  // Every block on a free list is a block of an arena that malloc() owns, of the list's size, and is on
  // one list once.
  lemma FreeListsOwned(s: State, d: nat, k: nat)
    requires Inv(s) && d < CLASSES && k < |s.free[d]|
    ensures OwnedOnce(s, d, k)
  {
    hide AllAccounted, LiveOk, ArenasOk, Page, IsSlot;
    var b := s.free[d][k];
    assert b in s.free[d];
    forall e, j | 0 <= e < CLASSES && 0 <= j < |s.free[e]| && s.free[e][j] == b ensures e == d && j == k {
      assert b in s.free[e] && OnArena(s.arenas, e, b);
      assert Distinct(s.free[d]);
    }
  }

  // After a call of free() that gives a page back, no block of that page is on any free list or live.
  lemma ReturnedPageForgotten(s: State, b: nat)
    requires Inv(s) && b in s.live && Page(b) !in Free(s, b).arenas
    ensures Untouched(Free(s, b), Page(b))
  {
    hide Page;
    FreeInv(s, b);
    NoArenaNoBlocks(Free(s, b), Page(b));
  }

  // Over every run: the counts and the free lists are exact, and of a page that is not owned, whether given
  // back or never had, no block is on a free list or live.
  lemma EveryRunAccounts(run: seq<Action>, s: State)
    requires Reachable(run, s)
    ensures |s.free| == CLASSES
    ensures forall a | a in s.arenas && s.arenas[a].desc.Some? :: CountedExactly(s, a)
    ensures forall d, k | 0 <= d < CLASSES && 0 <= k < |s.free[d]| :: OwnedOnce(s, d, k)
    ensures forall p | p !in s.arenas :: Untouched(s, p)
  {
    hide Inv, Reachable, CountedExactly, OwnedOnce, Untouched;
    ReachableInv(run, s);
    InvArenas(s);
    forall a | a in s.arenas && s.arenas[a].desc.Some? ensures CountedExactly(s, a) { CountsExact(s, a); }
    forall d, k | 0 <= d < CLASSES && 0 <= k < |s.free[d]| ensures OwnedOnce(s, d, k) { FreeListsOwned(s, d, k); }
    forall p | p !in s.arenas ensures Untouched(s, p) { ForeignPage(s, p); }
  }

  lemma ForeignPage(s: State, p: nat)
    requires Inv(s) && p !in s.arenas
    ensures Untouched(s, p)
  {
    hide Untouched, ArenasOk, FreeOk, LiveOk, AllAccounted, InUse;
    NoArenaNoBlocks(s, p);
  }

  // ---- Pairs of calls ----

  // malloc() either fails and changes nothing, or adds one block that nobody held.
  lemma MallocAnswer(s: State, size: nat, grant: Option<nat>)
    requires Inv(s) && size < 0x1_0000_0000 && Grantable(s, size, grant)
    ensures var a, r := Answer(s, size, grant), Malloc(s, size, grant);
            if a == 0 then r == s else a !in s.live && r.live == s.live[a := size]
  {
    hide Page, PerArena, Offset, PageCount, Consistent, OnArena, Fresh, Blocks, Untouched;
    var d := Class(size);
    InvArenas(s);
    if size == 0 || (d == CLASSES && grant.None?) {
    } else if d == CLASSES {
      MallocBigConsistent(s, size, grant.value);
      BigAnswerFree(s, grant.value);
    } else if s.free[d] != [] {
      CanTake(s, d);
      FreeNotLive(s, d, s.free[d][0]);
      assert s.free[d][0] in s.free[d];
    } else if grant.Some? {
      CarveInv(s, d, grant.value);
      var c := Carve(s, d, grant.value);
      CanTake(c, d);
      FreeNotLive(c, d, c.free[d][0]);
      assert c.free[d][0] in c.free[d];
    }
  }

  lemma BigAnswerFree(s: State, p: nat)
    requires Untouched(s, p) && Page(p + 12) == p
    ensures p + 12 !in s.live
  {}

  // Freeing a block just allocated restores the state exactly: the same lists in the same order.
  lemma FreeUndoesMalloc(s: State, size: nat, grant: Option<nat>)
    requires Inv(s) && size < 0x1_0000_0000 && Grantable(s, size, grant)
    requires Answer(s, size, grant) != 0
    ensures var r := Malloc(s, size, grant);
            Inv(r) && Answer(s, size, grant) in r.live && Free(r, Answer(s, size, grant)) == s
  {
    hide Page, PerArena, Offset, PageCount, Consistent, OnArena, Fresh, Untouched, InUse, Give, Take, Carve, Release;
    var d, b, r := Class(size), Answer(s, size, grant), Malloc(s, size, grant);
    MallocInv(s, size, grant);
    MallocAnswer(s, size, grant);
    InvArenas(s);
    if d == CLASSES {
      UndoBig(s, size, grant.value);
    } else if s.free[d] != [] {
      UndoTake(s, d, size);
    } else {
      UndoCarve(s, d, size, grant.value);
    }
  }

  lemma UndoBig(s: State, size: nat, p: nat)
    requires Inv(s) && size < 0x1_0000_0000 && Class(size) == CLASSES && Fresh(s, p, PageCount(size))
    ensures var r := MallocBig(s, size, Some(p));
            Inv(r) && p + 12 in r.live && Free(r, p + 12) == s
  {
    hide Page, PageCount, Consistent, Fresh, OnArena;
    MallocInv(s, size, Some(p));
    MallocBigConsistent(s, size, p);
    var r := MallocBig(s, size, Some(p));
    assert s.live[p + 12 := size] - {p + 12} == s.live;
    assert r.arenas - {p} == s.arenas;
  }

  lemma UndoTake(s: State, d: nat, size: nat)
    requires Inv(s) && d < CLASSES && s.free[d] != [] && 0 < size < 0x1_0000_0000 && Class(size) == d
    ensures var b := s.free[d][0];
            && OnArena(s.arenas, d, b) && s.arenas[Page(b)].count > 0
            && Inv(Take(s, d, size)) && b in Take(s, d, size).live
            && Free(Take(s, d, size), b) == s
  {
    hide Page, Consistent, Class, OnArena, Release, PerArena;
    InvArenas(s);
    var b := s.free[d][0];
    InUseMore(s, Page(b));
    TakeInv(s, d, size);
    OnArenaDesc(s.arenas, d, b);
    FreeNotLive(s, d, b);
    assert b in s.free[d];
    var r := Take(s, d, size);
    NotNull(r, b);
    assert s.live[b := size] - {b} == s.live;
    assert [b] + s.free[d][1..] == s.free[d];
    assert Give(r, d, b) == s;
  }

  lemma UndoCarve(s: State, d: nat, size: nat, p: nat)
    requires Inv(s) && d < CLASSES && s.free[d] == [] && 0 < size < 0x1_0000_0000 && Class(size) == d
    requires Fresh(s, p, 1)
    ensures Malloc(s, size, Some(p)) == Take(Carve(s, d, p), d, size)
    ensures var r := Take(Carve(s, d, p), d, size);
            Inv(r) && Block(p, d, 0) in r.live && Free(r, Block(p, d, 0)) == s
  {
    hide Page, Consistent, Class, OnArena, PerArena, Fresh, Blocks, InUse, Offset;
    MallocInv(s, size, Some(p));
    CarveInv(s, d, p);
    InvArenas(s);
    var c, b := Carve(s, d, p), Block(p, d, 0);
    CanTake(c, d);
    OnArenaDesc(c.arenas, d, b);
    var r := Take(c, d, size);
    FreeNotLive(c, d, b);
    assert b in c.free[d];
    OneFits(d);
    FreshShape(s, p, 1);
    BlockToArena(p, d, 0);
    NotNull(r, b);
    assert s.live[b := size] - {b} == s.live;
    assert c.free[d] == [b] + c.free[d][1..];
    assert Give(r, d, b) == c;
    UndoRelease(s, d, p);
  }

  lemma {:induction false} DropAll(list: seq<nat>, gone: set<nat>)
    requires forall i | 0 <= i < |list| :: list[i] in gone
    ensures Drop(list, gone) == []
  {
    if list != [] { DropAll(list[1..], gone); }
  }

  lemma UndoRelease(s: State, d: nat, p: nat)
    requires Inv(s) && d < CLASSES && s.free[d] == [] && Fresh(s, p, 1)
    ensures Release(Carve(s, d, p), d, p) == s
  {
    hide Consistent, PerArena, Block;
    InvArenas(s);
    FreshArenas(s, p, Header(Some(d), PerArena(d)), 1);
    var list, gone := Carve(s, d, p).free[d], BlockSet(p, d, PerArena(d));
    assert list == Blocks(p, d, PerArena(d));
    DropAll(list, gone);
    assert s.arenas[p := Header(Some(d), PerArena(d))] - {p} == s.arenas;
  }

  // When nothing is held, everything has been given back to the page allocator.
  lemma NothingHeldNothingKept(s: State)
    requires Inv(s) && s.live == map[]
    ensures s == Init()
  {
    hide Consistent, PerArena, Block, Page;
    forall a ensures a !in s.arenas {
      if a in s.arenas { ArenaHasLive(s, a); }
    }
    InvArenas(s);
    forall d | 0 <= d < CLASSES ensures s.free[d] == [] {
      if s.free[d] != [] {
        FreeListsOwned(s, d, 0);
        assert false;
      }
    }
    assert s.free == [[], [], [], [], [], [], []];
  }

  lemma ArenaHasLive(s: State, a: nat)
    requires Inv(s) && a in s.arenas
    ensures s.live != map[]
  {
    hide PerArena, Block, Page, LiveOk, FreeOk;
    assert Accounted(s.free, s.live, a, s.arenas[a]);
    if s.arenas[a].desc.Some? {
      var d := s.arenas[a].desc.value;
      CountAtMost(s.free[d], a, d, PerArena(d));
      hide FreeCount;
      assert !forall i: nat | i < PerArena(d) :: Block(a, d, i) in s.free[d];
      var i: nat :| i < PerArena(d) && Block(a, d, i) !in s.free[d];
      assert Block(a, d, i) in s.live;
    }
  }

  // ---- realloc() ----

  ghost function Realloc(s: State, b: nat, size: nat, grant: Option<nat>): (r: State)
    requires Inv(s) && size < 0x1_0000_0000 && Grantable(s, size, grant) && (b == 0 || b in s.live)
    ensures Inv(r)
  {
    if size == 0 then FreeInv(s, b); Free(s, b)
    else
      MallocInv(s, size, grant);
      MallocAnswer(s, size, grant);
      var m := Malloc(s, size, grant);
      if b != 0 && Answer(s, size, grant) != 0 then FreeInv(m, b); Free(m, b) else m
  }

  // The number of bytes realloc() copies from the old block.
  ghost function CopyLength(s: State, b: nat, size: nat): int
    requires Page(b) in s.arenas
  {
    if size < Extent(s.arenas, b) then size else Extent(s.arenas, b)
  }

  // The copy takes every byte that the old block has and the new size covers, and no other; it stays inside the new
  // one exactly when the new request did not wrap around or the old block was no larger than a page without its header.
  lemma ReallocCopies(s: State, b: nat, size: nat, grant: Option<nat>)
    requires Inv(s) && 0 < size < 0x1_0000_0000 && Grantable(s, size, grant) && b in s.live
    requires Answer(s, size, grant) != 0
    ensures var m, a := Malloc(s, size, grant), Answer(s, size, grant);
            && Inv(m) && b in m.live && a in m.live && a != b
            && Page(b) in m.arenas && Page(a) in m.arenas
            && 0 < CopyLength(m, b, size)
            && CopyLength(m, b, size) <= Extent(m.arenas, b) && CopyLength(m, b, size) <= size
            && (CopyLength(m, b, size) == Extent(m.arenas, b) || CopyLength(m, b, size) == size)
            && (CopyLength(m, b, size) <= Extent(m.arenas, a)
                <==> size + HEADER < 0x1_0000_0000 || Extent(m.arenas, b) <= 4096 - HEADER)
  {
    hide Inv, Page, PageCount, Malloc, Answer, Extent, Grantable;
    MallocInv(s, size, grant);
    MallocAnswer(s, size, grant);
    var m, a := Malloc(s, size, grant), Answer(s, size, grant);
    LiveInside(m, b);
    LiveInside(m, a);
    LiveBigEnough(m, a);
    if size + HEADER >= 0x1_0000_0000 {
      WrappedExtent(m, a);
      assert Extent(m.arenas, b) <= 0x1_0000_0000;
      OldExtent(m, b);
    }
  }

  // memcpy() on a memory.
  function MemCopy(mem: nat -> int, to: nat, from: nat, len: int): nat -> int {
    (x: nat) => if to <= x < to + len then mem(from + x - to) else mem(x)
  }

  // realloc() keeps the data: when the request did not wrap around, every byte k that both blocks have is the same
  // after the copy, and so is every byte k of any other live block c.
  lemma ReallocKeepsData(s: State, b: nat, size: nat, grant: Option<nat>, mem: nat -> int, k: nat, c: nat)
    requires Inv(s) && 0 < size && size + HEADER < 0x1_0000_0000 && Grantable(s, size, grant) && b in s.live
    requires Answer(s, size, grant) != 0
    ensures var m, a := Malloc(s, size, grant), Answer(s, size, grant);
            && Page(b) in m.arenas && b in m.live && a in m.live
            && var after := MemCopy(mem, a, b, CopyLength(m, b, size));
               && (k < Extent(m.arenas, b) && k < size ==> after(a + k) == mem(b + k))
               && (c in m.live && c != a ==>
                     Page(c) in m.arenas && (k < Extent(m.arenas, c) ==> after(c + k) == mem(c + k)))
  {
    hide Inv, Page, PageCount, Malloc, Answer, Extent, Grantable, CopyLength, MemCopy;
    ReallocCopies(s, b, size, grant);
    var m, a := Malloc(s, size, grant), Answer(s, size, grant);
    var len := CopyLength(m, b, size);
    MemCopied(mem, a, b, len, a + k);
    if c in m.live && c != a {
      LiveApart(m, a, c);
      MemCopied(mem, a, b, len, c + k);
    }
  }

  lemma MemCopied(mem: nat -> int, to: nat, from: nat, len: int, x: nat)
    ensures MemCopy(mem, to, from, len)(x) == if to <= x < to + len then mem(from + x - to) else mem(x)
  {}

  lemma WrappedExtent(s: State, a: nat)
    requires Inv(s) && a in s.live && s.live[a] + HEADER >= 0x1_0000_0000
    ensures Page(a) in s.arenas && Extent(s.arenas, a) == 4096 - HEADER
  {
    hide Inv, OnArena, PerArena, PageCount;
    var i := LiveShape(s, a);
    PageCountFacts(s.live[a]);
  }

  // No block reaches the size of a request that wraps around, since the memory has an end.
  lemma OldExtent(s: State, b: nat)
    requires Inv(s) && b in s.live
    ensures Page(b) in s.arenas && Extent(s.arenas, b) <= 0x1_0000_0000 - 4096 - HEADER
  {
    hide Inv, PerArena, OnArena, Class, PageCount, ArenasOk, Page, BlockSize;
    LiveInside(s, b);
    InvArenas(s);
    ArenaAt(s.arenas, Page(b));
  }

  // It can happen: a block of two pages, reallocated to 2^32 - 1 bytes, is copied into one of a page.
  lemma ReallocOverrunExample()
    ensures var a, size, grant := Allocate(5000, Some(4096)), 0xffff_ffff, Some(0x1_0000);
            && Enabled(Init(), a)
            && var s := Step(Init(), a);
               && Reachable([a], s) && 4108 in s.live && Grantable(s, size, grant)
               && var m, b := Malloc(s, size, grant), Answer(s, size, grant);
                  && Page(4108) in m.arenas && Page(b) in m.arenas
                  && CopyLength(m, 4108, size) == 8180 && Extent(m.arenas, b) == 4084
  {
    hide Inv, Enabled, Step, Grantable, Malloc, Answer, Reachable, Init, Page;
    var a, size, grant := Allocate(5000, Some(4096)), 0xffff_ffff, Some(0x1_0000);
    FirstBlock();
    FirstReachable(a);
    var s := Step(Init(), a);
    SecondGrant(s);
    GrantedBig(s, size, 0x1_0000);
    PageOf(4096, 12);
    PageOf(0x1_0000, 12);
  }

  lemma GrantedBig(s: State, size: nat, p: nat)
    requires Inv(s) && size > 1024 && Grantable(s, size, Some(p))
    ensures Malloc(s, size, Some(p)).arenas == s.arenas[p := Header(None, PageCount(size))]
    ensures Malloc(s, size, Some(p)).live == s.live[p + 12 := size]
    ensures Answer(s, size, Some(p)) == p + 12
  {
    hide Inv, Grantable, PageCount;
  }

  lemma FirstBlock()
    ensures var a := Allocate(5000, Some(4096));
            && Enabled(Init(), a)
            && Step(Init(), a).arenas == map[4096 := Header(None, 2)] && Step(Init(), a).live == map[4108 := 5000]
  {
    hide Inv, Malloc;
    assert PageCount(5000) == 2;
    GrantedBig(Init(), 5000, 4096);
  }

  lemma SecondGrant(s: State)
    requires s.arenas == map[4096 := Header(None, 2)]
    ensures PageCount(0xffff_ffff) == 1 && Grantable(s, 0xffff_ffff, Some(0x1_0000))
  {}

  lemma FirstReachable(a: Action)
    requires Enabled(Init(), a)
    ensures Reachable([a], Step(Init(), a))
  {
    hide Inv, Enabled, Step;
    assert [a][..0] == [] && Reachable([], Init());
  }
}
