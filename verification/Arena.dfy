// The block allocator of proj-pregame/src/threads/malloc.c as a state: the free list of every
// descriptor, the header of every arena, and the blocks that callers hold.  Addresses are numbers and
// 0 is the null pointer.
module Arena {
  import opened Common

  const PAGE: nat := 4096
  const HEADER: nat := 12       // sizeof(struct arena)
  const CLASSES: nat := 7       // block sizes 16, 32, ..., 1024

  function BlockSize(d: nat): nat {
    if d == 0 then 16 else if d == 1 then 32 else if d == 2 then 64 else if d == 3 then 128
    else if d == 4 then 256 else if d == 5 then 512 else 1024
  }

  function PerArena(d: nat): nat {
    4084 / BlockSize(d)
  }

  // The smallest descriptor whose blocks hold `size` bytes, or CLASSES if there is none.
  function Class(size: nat): (d: nat)
    ensures d <= CLASSES && (d < CLASSES <==> size <= 1024)
    ensures d < CLASSES ==> size <= BlockSize(d)
    ensures forall e | 0 <= e < d :: BlockSize(e) < size
  {
    if size <= 16 then 0 else if size <= 32 then 1 else if size <= 64 then 2 else if size <= 128 then 3
    else if size <= 256 then 4 else if size <= 512 then 5 else if size <= 1024 then 6 else 7
  }

  // DIV_ROUND_UP(size + sizeof *a, PGSIZE) in 32-bit unsigned arithmetic.
  function PageCount(size: nat): nat {
    var sum := (size + 12) % 0x1_0000_0000;
    (sum + 4095) % 0x1_0000_0000 / 4096
  }

  // desc and free_cnt of an arena header; a big block has no descriptor and counts its pages.
  datatype Header = Header(desc: Option<nat>, count: nat)

  // `live` is history: the blocks handed out and not yet freed, with the sizes asked for.
  datatype State = State(free: seq<seq<nat>>, arenas: map<nat, Header>, live: map<nat, nat>)

  function Offset(d: nat, i: nat): nat {
    12 + i * BlockSize(d)
  }

  // arena_to_block()
  function Block(a: nat, d: nat, i: nat): nat {
    a + Offset(d, i)
  }

  // pg_round_down(), on which block_to_arena() rests.
  function Page(b: nat): nat {
    b - b % 4096
  }

  function Span(h: Header): nat {
    if h.desc.Some? then 4096 else 4096 * h.count
  }

  // block_size(): the number of bytes the holder of block b may use.
  function Extent(arenas: map<nat, Header>, b: nat): int
    requires Page(b) in arenas
  {
    var h := arenas[Page(b)];
    if h.desc.Some? then BlockSize(h.desc.value) else 4096 * h.count - b % 4096
  }

  // The list without the elements of `gone`, in order.
  function Drop(list: seq<nat>, gone: set<nat>): seq<nat> {
    if list == [] then []
    else if list[0] in gone then Drop(list[1..], gone)
    else [list[0]] + Drop(list[1..], gone)
  }

  function Blocks(a: nat, d: nat, n: nat): seq<nat> {
    seq(n, i requires 0 <= i < n => Block(a, d, i))
  }

  function BlockSet(a: nat, d: nat, n: nat): set<nat> {
    set i: nat | i < n :: Block(a, d, i)
  }

  // ---- Operations ----

  // A run of `count` pages that palloc may return: aligned, not null, and clear of what it has given out.
  ghost predicate Fresh(s: State, page: nat, count: nat) {
    && page % 4096 == 0 && page > 0 && count > 0 && page + 4096 * count <= 0x1_0000_0000
    && forall a | a in s.arenas :: Apart(a, Span(s.arenas[a]), page, 4096 * count)
  }

  predicate Apart(a: nat, m: nat, b: nat, n: nat) {
    a + m <= b || b + n <= a
  }

  // What palloc may answer to the request malloc(size) makes, if it makes one: null, or fresh pages.
  ghost predicate Grantable(s: State, size: nat, grant: Option<nat>) {
    grant.None? || Fresh(s, grant.value, if Class(size) < CLASSES then 1 else PageCount(size))
  }

  // A page becomes an arena of descriptor d, all of its blocks free.
  function Carve(s: State, d: nat, page: nat): State
    requires d < |s.free|
  {
    s.(free := s.free[d := s.free[d] + Blocks(page, d, PerArena(d))],
       arenas := s.arenas[page := Header(Some(d), PerArena(d))])
  }

  // The first free block of descriptor d goes to the caller.
  function Take(s: State, d: nat, size: nat): State
    requires d < |s.free| && s.free[d] != [] && Page(s.free[d][0]) in s.arenas
    requires s.arenas[Page(s.free[d][0])].count > 0
  {
    var b := s.free[d][0];
    var h := s.arenas[Page(b)];
    State(s.free[d := s.free[d][1..]], s.arenas[Page(b) := h.(count := h.count - 1)], s.live[b := size])
  }

  function MallocBig(s: State, size: nat, grant: Option<nat>): State {
    if grant.None? then s
    else s.(arenas := s.arenas[grant.value := Header(None, PageCount(size))],
            live := s.live[grant.value + 12 := size])
  }

  ghost function Malloc(s: State, size: nat, grant: Option<nat>): State
    requires Inv(s) && Grantable(s, size, grant)
  {
    var d := Class(size);
    if size == 0 then s
    else if d == CLASSES then MallocBig(s, size, grant)
    else if s.free[d] != [] then (CanTake(s, d); Take(s, d, size))
    else if grant.None? then s
    else (CarveInv(s, d, grant.value); CanTake(Carve(s, d, grant.value), d); Take(Carve(s, d, grant.value), d, size))
  }

  // The address malloc() returns.
  ghost function Answer(s: State, size: nat, grant: Option<nat>): nat
    requires Inv(s)
  {
    var d := Class(size);
    if size == 0 then 0
    else if d == CLASSES then (if grant.None? then 0 else grant.value + 12)
    else if s.free[d] != [] then s.free[d][0]
    else if grant.None? then 0
    else Block(grant.value, d, 0)
  }

  // Block b goes to the front of the free list of its descriptor.
  function Give(s: State, d: nat, b: nat): State
    requires d < |s.free| && Page(b) in s.arenas
  {
    var h := s.arenas[Page(b)];
    State(s.free[d := [b] + s.free[d]], s.arenas[Page(b) := h.(count := h.count + 1)], s.live - {b})
  }

  // An arena without live blocks goes back to the page allocator.
  function Release(s: State, d: nat, a: nat): State
    requires d < |s.free|
  {
    s.(free := s.free[d := Drop(s.free[d], BlockSet(a, d, PerArena(d)))], arenas := s.arenas - {a})
  }

  ghost function Free(s: State, b: nat): State
    requires Inv(s) && (b == 0 || b in s.live)
  {
    if b == 0 then s
    else
      LiveHasArena(s, b);
      var h := s.arenas[Page(b)];
      if h.desc.None? then State(s.free, s.arenas - {Page(b)}, s.live - {b})
      else if h.count + 1 >= PerArena(h.desc.value) then Release(Give(s, h.desc.value, b), h.desc.value, Page(b))
      else Give(s, h.desc.value, b)
  }

  // ---- The invariant ----

  ghost predicate IsSlot(d: nat, o: nat) {
    exists i: nat :: i < PerArena(d) && o == Offset(d, i)
  }

  // b is a block of an arena of descriptor d.
  ghost predicate OnArena(arenas: map<nat, Header>, d: nat, b: nat) {
    Page(b) in arenas && arenas[Page(b)].desc == Some(d) && IsSlot(d, b % 4096)
  }

  ghost predicate ArenasOk(arenas: map<nat, Header>) {
    && (forall a | a in arenas ::
          a > 0 && a % 4096 == 0 && 0 < Span(arenas[a]) && a + Span(arenas[a]) <= 0x1_0000_0000
          && (arenas[a].desc.Some? ==> arenas[a].desc.value < CLASSES))
    && (forall a, b | a in arenas && b in arenas && a != b :: Apart(a, Span(arenas[a]), b, Span(arenas[b])))
  }

  ghost predicate FreeOk(s: State) {
    && |s.free| == CLASSES
    && (forall d | 0 <= d < CLASSES :: Distinct(s.free[d]))
    && (forall d, b | 0 <= d < CLASSES && b in s.free[d] :: OnArena(s.arenas, d, b))
  }

  ghost predicate LiveAt(arenas: map<nat, Header>, b: nat, size: nat) {
    && 0 < size < 0x1_0000_0000 && Page(b) in arenas
    && var h := arenas[Page(b)];
       if h.desc.None? then b % 4096 == 12 && Class(size) == CLASSES && h.count == PageCount(size) && h.count > 0
       else OnArena(arenas, h.desc.value, b) && Class(size) == h.desc.value
  }

  ghost predicate LiveOk(s: State) {
    forall b | b in s.live :: LiveAt(s.arenas, b, s.live[b])
  }

  // Every block of the arena is either free or live.
  ghost predicate Covered(list: seq<nat>, live: map<nat, nat>, a: nat, d: nat) {
    forall i: nat | i < PerArena(d) :: Block(a, d, i) in list <==> Block(a, d, i) !in live
  }

  // How many of the first n blocks of the arena are on the list.
  function FreeCount(list: seq<nat>, a: nat, d: nat, n: nat): nat {
    if n == 0 then 0 else FreeCount(list, a, d, n - 1) + if Block(a, d, n - 1) in list then 1 else 0
  }

  // The blocks of an arena are all accounted for, and free_cnt counts the free ones.
  ghost predicate Accounted(free: seq<seq<nat>>, live: map<nat, nat>, a: nat, h: Header) {
    if h.desc.None? then a + 12 in live
    else
      var d := h.desc.value;
      d < |free| && Covered(free[d], live, a, d) && h.count == FreeCount(free[d], a, d, PerArena(d))
  }

  ghost predicate AllAccounted(s: State) {
    forall a | a in s.arenas :: Accounted(s.free, s.live, a, s.arenas[a])
  }

  // No arena other than `except` is entirely free.
  ghost predicate InUse(arenas: map<nat, Header>, except: nat) {
    forall a | a in arenas && arenas[a].desc.Some? && a != except :: arenas[a].count < PerArena(arenas[a].desc.value)
  }

  // What holds also inside malloc() and free(), between the steps.
  ghost predicate Consistent(s: State) {
    ArenasOk(s.arenas) && FreeOk(s) && LiveOk(s) && AllAccounted(s)
  }

  // What holds between calls; no arena is at address 0.
  ghost predicate Inv(s: State) {
    Consistent(s) && InUse(s.arenas, 0)
  }

  // ---- Arithmetic of arenas and blocks ----

  lemma OffsetInside(d: nat, i: nat)
    requires d < CLASSES && i < PerArena(d)
    ensures 12 <= Offset(d, i) && Offset(d, i) + BlockSize(d) <= 4096
    ensures (Offset(d, i) - 12) % BlockSize(d) == 0
  {
    if d == 0 {} else if d == 1 {} else if d == 2 {} else if d == 3 {} else if d == 4 {} else if d == 5 {} else {}
  }

  lemma OffsetApart(d: nat, i: nat, j: nat)
    requires d < CLASSES && i < j
    ensures Offset(d, i) + BlockSize(d) <= Offset(d, j)
  {
    if d == 0 {} else if d == 1 {} else if d == 2 {} else if d == 3 {} else if d == 4 {} else if d == 5 {} else {}
  }

  lemma PageOf(a: nat, o: nat)
    requires a % 4096 == 0 && o < 4096
    ensures Page(a + o) == a && (a + o) % 4096 == o
  {}

  // block_to_arena() undoes arena_to_block(), and its alignment assertion holds.
  lemma BlockToArena(a: nat, d: nat, i: nat)
    requires a % 4096 == 0 && d < CLASSES && i < PerArena(d)
    ensures Page(Block(a, d, i)) == a && Block(a, d, i) % 4096 == Offset(d, i)
    ensures (Block(a, d, i) % 4096 - 12) % BlockSize(d) == 0
    ensures IsSlot(d, Block(a, d, i) % 4096)
  {
    OffsetInside(d, i);
    hide Offset, BlockSize, PerArena;
    PageOf(a, Offset(d, i));
  }

  lemma BlockInjective(a: nat, d: nat, i: nat, j: nat)
    requires d < CLASSES && i != j
    ensures Block(a, d, i) != Block(a, d, j)
  {
    if i < j { OffsetApart(d, i, j); } else { OffsetApart(d, j, i); }
  }

  // ---- The state between the steps ----

  lemma LiveHasArena(s: State, b: nat)
    requires Consistent(s) && b in s.live
    ensures Page(b) in s.arenas
    ensures s.arenas[Page(b)].desc.Some? ==> s.arenas[Page(b)].desc.value < CLASSES == |s.free|
  {
    hide AllAccounted, Apart;
    assert LiveAt(s.arenas, b, s.live[b]);
  }

  lemma OnArenaIndex(arenas: map<nat, Header>, d: nat, b: nat) returns (i: nat)
    requires OnArena(arenas, d, b)
    ensures i < PerArena(d) && b == Block(Page(b), d, i)
  {
    i :| i < PerArena(d) && b % 4096 == Offset(d, i);
  }

  // The block at the front of a free list can be taken.
  lemma CanTake(s: State, d: nat)
    requires Consistent(s) && d < CLASSES && s.free[d] != []
    ensures var b := s.free[d][0];
            && OnArena(s.arenas, d, b) && b > 0
            && s.arenas[Page(b)].count > 0
  {
    hide Covered, PerArena, Offset, BlockSize, Apart;
    var b := s.free[d][0];
    assert b in s.free[d];
    assert OnArena(s.arenas, d, b);
    var i := OnArenaIndex(s.arenas, d, b);
    CountPositive(s.free[d], Page(b), d, PerArena(d), i);
  }

  lemma {:induction false} CountPositive(list: seq<nat>, a: nat, d: nat, n: nat, i: nat)
    requires i < n && Block(a, d, i) in list
    ensures FreeCount(list, a, d, n) > 0
  {
    if i < n - 1 { CountPositive(list, a, d, n - 1, i); }
  }

  lemma {:induction false} CountAtMost(list: seq<nat>, a: nat, d: nat, n: nat)
    ensures FreeCount(list, a, d, n) <= n
    ensures FreeCount(list, a, d, n) == n <==> forall i: nat | i < n :: Block(a, d, i) in list
  {
    if n > 0 {
      CountAtMost(list, a, d, n - 1);
      assert (forall i: nat | i < n :: Block(a, d, i) in list)
        <==> (forall i: nat | i < n - 1 :: Block(a, d, i) in list) && Block(a, d, n - 1) in list;
    }
  }

  lemma {:induction false} CountSame(one: seq<nat>, two: seq<nat>, a: nat, d: nat, n: nat)
    requires forall i: nat | i < n :: Block(a, d, i) in one <==> Block(a, d, i) in two
    ensures FreeCount(one, a, d, n) == FreeCount(two, a, d, n)
  {
    if n > 0 { CountSame(one, two, a, d, n - 1); }
  }

  // Two lists that differ in one block of the arena differ by one in the count.
  lemma {:induction false} CountFlip(less: seq<nat>, more: seq<nat>, a: nat, d: nat, n: nat, k: nat)
    requires k < n && Block(a, d, k) in more && Block(a, d, k) !in less
    requires forall i: nat | i < n && i != k :: Block(a, d, i) in less <==> Block(a, d, i) in more
    ensures FreeCount(more, a, d, n) == FreeCount(less, a, d, n) + 1
  {
    if k == n - 1 {
      CountSame(less, more, a, d, n - 1);
    } else {
      CountFlip(less, more, a, d, n - 1, k);
    }
  }

  // From s to r only the page p, its blocks and their places on list d have changed.
  ghost predicate SameElsewhere(s: State, r: State, d: nat, p: nat) {
    && |s.free| == |r.free| == CLASSES && d < CLASSES
    && (forall e | 0 <= e < CLASSES && e != d :: r.free[e] == s.free[e])
    && (forall b: nat | Page(b) != p :: b in r.free[d] <==> b in s.free[d])
    && (forall a | a != p :: a in r.arenas <==> a in s.arenas)
    && (forall a | a != p && a in r.arenas :: r.arenas[a] == s.arenas[a])
    && (forall b: nat | Page(b) != p :: b in r.live <==> b in s.live)
    && (forall b: nat | Page(b) != p && b in r.live :: r.live[b] == s.live[b])
  }

  // The page p is in order.
  ghost predicate Here(r: State, p: nat) {
    && |r.free| == CLASSES
    && (p in r.arenas ==> Accounted(r.free, r.live, p, r.arenas[p]))
    && (forall b | b in r.live && Page(b) == p :: LiveAt(r.arenas, b, r.live[b]))
    && (forall e, b | 0 <= e < CLASSES && b in r.free[e] && Page(b) == p :: OnArena(r.arenas, e, b))
  }

  lemma AccountedElsewhere(s: State, r: State, d: nat, p: nat, a: nat)
    requires Consistent(s) && SameElsewhere(s, r, d, p) && a in r.arenas && a != p
    ensures Accounted(r.free, r.live, a, r.arenas[a])
  {
    hide LiveOk, FreeOk, PerArena, Offset, BlockSize, FreeCount, Page, Apart;
    var h := s.arenas[a];
    assert Accounted(s.free, s.live, a, h) && a % 4096 == 0;
    if h.desc.None? {
      PageOf(a, 12);
    } else {
      var e := h.desc.value;
      forall i: nat | i < PerArena(e)
        ensures Block(a, e, i) in r.free[e] <==> Block(a, e, i) in s.free[e]
        ensures Block(a, e, i) in r.live <==> Block(a, e, i) in s.live
      {
        BlockToArena(a, e, i);
      }
      CountSame(r.free[e], s.free[e], a, e, PerArena(e));
    }
  }

  lemma Assemble(s: State, r: State, d: nat, p: nat)
    requires Consistent(s) && SameElsewhere(s, r, d, p) && Here(r, p)
    requires ArenasOk(r.arenas) && Distinct(r.free[d])
    ensures Consistent(r)
  {
    hide Accounted, Apart, Page, Distinct, IsSlot, PageCount, Class;
    forall a | a in r.arenas ensures Accounted(r.free, r.live, a, r.arenas[a]) {
      if a != p { AccountedElsewhere(s, r, d, p, a); }
    }
    forall b | b in r.live ensures LiveAt(r.arenas, b, r.live[b]) {
      if Page(b) != p { assert LiveAt(s.arenas, b, s.live[b]); }
    }
    forall e, b | 0 <= e < CLASSES && b in r.free[e] ensures OnArena(r.arenas, e, b) {
      if Page(b) != p { assert b in s.free[e] && OnArena(s.arenas, e, b); }
    }
    assert forall e | 0 <= e < CLASSES :: Distinct(r.free[e]);
  }

  lemma NoArenaNoBlocks(s: State, p: nat)
    requires Consistent(s) && p !in s.arenas
    ensures Untouched(s, p)
  {
    forall b | b in s.live ensures Page(b) != p { assert LiveAt(s.arenas, b, s.live[b]); }
    forall e, b | 0 <= e < CLASSES && b in s.free[e] ensures Page(b) != p { assert OnArena(s.arenas, e, b); }
  }

  lemma FreshArenas(s: State, p: nat, h: Header, count: nat)
    requires ArenasOk(s.arenas) && Fresh(s, p, count)
    requires Span(h) == 4096 * count && (h.desc.Some? ==> h.desc.value < CLASSES)
    ensures p !in s.arenas && ArenasOk(s.arenas[p := h])
  {
    hide Span;
  }

  lemma BlocksDistinct(a: nat, d: nat, n: nat)
    requires d < CLASSES
    ensures Distinct(Blocks(a, d, n))
    ensures forall i: nat | i < n :: Block(a, d, i) in Blocks(a, d, n)
  {
    hide Block;
    forall i, j | 0 <= i < j < n ensures Blocks(a, d, n)[i] != Blocks(a, d, n)[j] {
      BlockInjective(a, d, i, j);
    }
    forall i: nat | i < n ensures Block(a, d, i) in Blocks(a, d, n) {
      assert Blocks(a, d, n)[i] == Block(a, d, i);
    }
  }

  lemma CarveBlocks(s: State, d: nat, page: nat)
    requires page % 4096 == 0 && d < CLASSES
    ensures forall b | b in Blocks(page, d, PerArena(d)) :: Page(b) == page && IsSlot(d, b % 4096)
  {
    hide Block, PerArena;
    forall b | b in Blocks(page, d, PerArena(d)) ensures Page(b) == page && IsSlot(d, b % 4096) {
      var i: nat :| i < PerArena(d) && b == Blocks(page, d, PerArena(d))[i];
      BlockToArena(page, d, i);
    }
  }

  // No block lies on page p.
  ghost predicate Untouched(s: State, p: nat) {
    && |s.free| == CLASSES && p !in s.arenas
    && (forall b | b in s.live :: Page(b) != p)
    && (forall e, b | 0 <= e < CLASSES && b in s.free[e] :: Page(b) != p)
  }

  lemma CarveElsewhere(s: State, d: nat, page: nat)
    requires Untouched(s, page) && page % 4096 == 0 && d < CLASSES && s.free[d] == []
    ensures SameElsewhere(s, Carve(s, d, page), d, page)
  {
    hide Page, Block, PerArena, Blocks;
    CarveBlocks(s, d, page);
    assert Carve(s, d, page).free[d] == Blocks(page, d, PerArena(d));
  }

  lemma CarveHere(s: State, d: nat, page: nat)
    requires Untouched(s, page) && page % 4096 == 0 && d < CLASSES && s.free[d] == []
    ensures Here(Carve(s, d, page), page)
  {
    hide Page, Block, PerArena, Blocks, IsSlot, FreeCount;
    var r := Carve(s, d, page);
    assert r.free[d] == Blocks(page, d, PerArena(d));
    CarveBlocks(s, d, page);
    BlocksDistinct(page, d, PerArena(d));
    CountAtMost(r.free[d], page, d, PerArena(d));
    assert Covered(r.free[d], r.live, page, d);
    forall e, b | 0 <= e < CLASSES && b in r.free[e] && Page(b) == page ensures OnArena(r.arenas, e, b) {
      assert e == d;
    }
  }

  lemma CarveInv(s: State, d: nat, page: nat)
    requires Inv(s) && d < CLASSES && Fresh(s, page, 1) && s.free[d] == []
    ensures Consistent(Carve(s, d, page)) && InUse(Carve(s, d, page).arenas, page)
    ensures Carve(s, d, page).free[d] != [] && Carve(s, d, page).free[d][0] == Block(page, d, 0)
  {
    hide Here, SameElsewhere, Block, Distinct, Apart, Accounted, LiveAt, Untouched;
    FreshArenas(s, page, Header(Some(d), PerArena(d)), 1);
    NoArenaNoBlocks(s, page);
    BlocksDistinct(page, d, PerArena(d));
    assert Carve(s, d, page).free[d] == Blocks(page, d, PerArena(d));
    CarveElsewhere(s, d, page);
    CarveHere(s, d, page);
    Assemble(s, Carve(s, d, page), d, page);
  }

  lemma SlotsFlip(less: seq<nat>, more: seq<nat>, a: nat, d: nat, k: nat)
    requires d < CLASSES && k < PerArena(d) && Block(a, d, k) !in less
    requires forall b :: b in more <==> b in less || b == Block(a, d, k)
    ensures FreeCount(more, a, d, PerArena(d)) == FreeCount(less, a, d, PerArena(d)) + 1
  {
    hide Block, PerArena, FreeCount;
    forall i: nat | i < PerArena(d) && i != k ensures Block(a, d, i) in less <==> Block(a, d, i) in more {
      BlockInjective(a, d, i, k);
    }
    CountFlip(less, more, a, d, PerArena(d), k);
  }

  // One block of a small arena moves between the free list and the caller; s has it free, r has it live.
  ghost predicate Moved(s: State, r: State, d: nat, b: nat) {
    && |s.free| == |r.free| == CLASSES && d < CLASSES
    && (forall e | 0 <= e < CLASSES && e != d :: r.free[e] == s.free[e])
    && (forall c :: c in s.free[d] <==> c in r.free[d] || c == b)
    && b !in r.free[d]
    && Page(b) in s.arenas && s.arenas[Page(b)].desc == Some(d) && s.arenas[Page(b)].count > 0
    && r.arenas == s.arenas[Page(b) := s.arenas[Page(b)].(count := s.arenas[Page(b)].count - 1)]
    && b !in s.live && b in r.live && r.live - {b} == s.live
  }

  lemma MovedElsewhere(s: State, r: State, d: nat, b: nat)
    requires Moved(s, r, d, b)
    ensures SameElsewhere(s, r, d, Page(b)) && SameElsewhere(r, s, d, Page(b))
  {
    hide Page;
    assert forall c | c in r.live && c != b :: c in r.live - {b};
    assert forall c | c in s.live :: c in r.live - {b};
  }

  lemma MovedAccounted(s: State, r: State, d: nat, b: nat)
    requires Moved(s, r, d, b) && OnArena(s.arenas, d, b)
    ensures var p := Page(b); Accounted(s.free, s.live, p, s.arenas[p]) <==> Accounted(r.free, r.live, p, r.arenas[p])
  {
    hide PerArena, Block, FreeCount, Page;
    var k := OnArenaIndex(s.arenas, d, b);
    var p := Page(b);
    SlotsFlip(r.free[d], s.free[d], p, d, k);
    forall i: nat | i < PerArena(d)
      ensures (Block(p, d, i) in s.free[d] <==> Block(p, d, i) !in s.live)
         <==> (Block(p, d, i) in r.free[d] <==> Block(p, d, i) !in r.live)
    {
      if i != k {
        BlockInjective(p, d, i, k);
        assert Block(p, d, i) in r.live <==> Block(p, d, i) in r.live - {b};
      }
    }
  }

  lemma TakeMoves(s: State, d: nat, size: nat)
    requires Consistent(s) && d < CLASSES && s.free[d] != []
    ensures var b := s.free[d][0];
            && OnArena(s.arenas, d, b) && s.arenas[Page(b)].count > 0
            && Moved(s, Take(s, d, size), d, b) && Distinct(s.free[d][1..])
  {
    hide Page, PerArena, ArenasOk, LiveOk, LiveAt, FreeCount, Offset;
    var b, l := s.free[d][0], s.free[d];
    CanTake(s, d);
    assert l == [b] + l[1..];
    assert b !in s.live by { FreeNotLive(s, d, b); }
    assert b !in l[1..] by {
      assert forall j | 0 <= j < |l| - 1 :: l[1..][j] == l[j + 1];
    }
  }

  lemma FreeNotLive(s: State, d: nat, b: nat)
    requires Consistent(s) && d < CLASSES && OnArena(s.arenas, d, b)
    ensures b in s.free[d] <==> b !in s.live
  {
    hide Page, PerArena, ArenasOk, LiveOk, FreeCount, Block, FreeOk;
    var i := OnArenaIndex(s.arenas, d, b);
    assert Accounted(s.free, s.live, Page(b), s.arenas[Page(b)]);
  }

  // A change of one count leaves the map of arenas in order.
  lemma CountChange(arenas: map<nat, Header>, a: nat, n: nat)
    requires ArenasOk(arenas) && a in arenas && arenas[a].desc.Some?
    ensures ArenasOk(arenas[a := arenas[a].(count := n)])
  {
    hide Apart;
  }

  lemma MovedLive(s: State, r: State, d: nat, b: nat, p: nat)
    requires Moved(s, r, d, b) && p == Page(b)
    requires OnArena(s.arenas, d, b) && (b in r.live ==> 0 < r.live[b] < 0x1_0000_0000 && Class(r.live[b]) == d)
    ensures (forall c | c in s.live && Page(c) == p :: LiveAt(s.arenas, c, s.live[c]))
       <==> (forall c | c in r.live && Page(c) == p :: LiveAt(r.arenas, c, r.live[c]))
  {
    hide Page, PerArena, IsSlot, Class, PageCount;
    assert forall c :: c in s.live <==> c in r.live && c != b by {
      assert forall c :: c in s.live <==> c in r.live - {b};
    }
    forall c: nat | c in s.live ensures s.live[c] == r.live[c] {
      assert c in r.live - {b};
    }
    forall c: nat, n: nat | Page(c) == p ensures LiveAt(s.arenas, c, n) <==> LiveAt(r.arenas, c, n) {}
    assert LiveAt(r.arenas, b, r.live[b]);
  }

  // Taking and giving a block both keep the state consistent.
  lemma MovedConsistent(s: State, r: State, d: nat, b: nat)
    requires Moved(s, r, d, b) && OnArena(s.arenas, d, b)
    requires 0 < r.live[b] < 0x1_0000_0000 && Class(r.live[b]) == d
    requires Distinct(s.free[d]) && Distinct(r.free[d])
    ensures Consistent(s) <==> Consistent(r)
  {
    hide Page, PerArena, IsSlot, Class, PageCount, SameElsewhere, Distinct, Accounted, Apart, LiveAt, ArenasOk;
    var p := Page(b);
    MovedElsewhere(s, r, d, b);
    MovedAccounted(s, r, d, b);
    MovedLive(s, r, d, b, p);
    assert Here(s, p) <==> Here(r, p);
    if Consistent(s) {
      CountChange(s.arenas, p, s.arenas[p].count - 1);
      assert Here(s, p);
      Assemble(s, r, d, p);
    }
    if Consistent(r) {
      CountChange(r.arenas, p, s.arenas[p].count);
      assert r.arenas[p := r.arenas[p].(count := s.arenas[p].count)] == s.arenas;
      assert Here(r, p);
      Assemble(r, s, d, p);
    }
  }

  lemma {:induction false} DropMembers(list: seq<nat>, gone: set<nat>)
    ensures forall x :: x in Drop(list, gone) <==> x in list && x !in gone
  {
    if list != [] {
      DropMembers(list[1..], gone);
      assert list == [list[0]] + list[1..];
    }
  }

  lemma {:induction false} DropDistinct(list: seq<nat>, gone: set<nat>)
    requires Distinct(list)
    ensures Distinct(Drop(list, gone))
  {
    if list != [] {
      assert forall i | 0 <= i < |list| - 1 :: list[1..][i] == list[i + 1];
      DropDistinct(list[1..], gone);
      DropMembers(list[1..], gone);
    }
  }

  lemma ReleaseElsewhere(s: State, d: nat, a: nat)
    requires |s.free| == CLASSES && d < CLASSES && a % 4096 == 0
    ensures SameElsewhere(s, Release(s, d, a), d, a)
  {
    hide Page, Block, PerArena;
    forall b | b in BlockSet(a, d, PerArena(d)) ensures Page(b) == a {
      var i: nat :| i < PerArena(d) && b == Block(a, d, i);
      BlockToArena(a, d, i);
    }
    DropMembers(s.free[d], BlockSet(a, d, PerArena(d)));
  }

  // No free block and no live block is left on the page that is given back.
  lemma ReleaseHere(s: State, d: nat, a: nat)
    requires Consistent(s) && d < CLASSES && a in s.arenas && s.arenas[a] == Header(Some(d), PerArena(d))
    ensures Untouched(Release(s, d, a), a) && Here(Release(s, d, a), a)
  {
    hide Page, Block, PerArena, FreeCount, Apart;
    var r := Release(s, d, a);
    DropMembers(s.free[d], BlockSet(a, d, PerArena(d)));
    assert Accounted(s.free, s.live, a, s.arenas[a]);
    CountAtMost(s.free[d], a, d, PerArena(d));
    forall b | b in s.live ensures Page(b) != a {
      assert LiveAt(s.arenas, b, s.live[b]);
      if Page(b) == a {
        var i := OnArenaIndex(s.arenas, d, b);
        assert false;
      }
    }
    forall e, b | 0 <= e < CLASSES && b in r.free[e] ensures Page(b) != a {
      assert OnArena(s.arenas, e, b);
      if Page(b) == a {
        var i := OnArenaIndex(s.arenas, d, b);
        assert false;
      }
    }
  }

  lemma ReleaseConsistent(s: State, d: nat, a: nat)
    requires Consistent(s) && d < CLASSES && a in s.arenas && s.arenas[a] == Header(Some(d), PerArena(d))
    ensures Consistent(Release(s, d, a)) && Untouched(Release(s, d, a), a)
  {
    hide SameElsewhere, Here, Accounted, LiveOk, Untouched, Distinct, OnArena, Drop, PerArena;
    ReleaseElsewhere(s, d, a);
    ReleaseHere(s, d, a);
    DropDistinct(s.free[d], BlockSet(a, d, PerArena(d)));
    Assemble(s, Release(s, d, a), d, a);
  }

  lemma PageCountFacts(size: nat)
    requires 1024 < size < 0x1_0000_0000
    ensures PageCount(size) == 0 <==> 0x1_0000_0000 - 4107 <= size <= 0x1_0000_0000 - 12
    ensures PageCount(size) > 0 ==> (4096 * PageCount(size) - 12 >= size <==> size + 12 < 0x1_0000_0000)
    ensures size + 12 > 0x1_0000_0000 ==> PageCount(size) == 1
    ensures PageCount(size) > 0 && size + 12 < 0x1_0000_0000 ==> 4096 * (PageCount(size) - 1) < size + 12
  {}

  lemma BigHere(s: State, p: nat, size: nat)
    requires Untouched(s, p) && p % 4096 == 0
    requires 1024 < size < 0x1_0000_0000 && PageCount(size) > 0
    ensures var r := MallocBig(s, size, Some(p)); SameElsewhere(s, r, 0, p) && Here(r, p)
  {
    PageOf(p, 12);
    hide Page, PageCount;
  }

  lemma MallocBigConsistent(s: State, size: nat, p: nat)
    requires Consistent(s) && Class(size) == CLASSES && size < 0x1_0000_0000 && Fresh(s, p, PageCount(size))
    ensures var r := MallocBig(s, size, Some(p));
            Consistent(r) && Untouched(s, p) && p + 12 in r.live && Page(p + 12) == p
  {
    hide Page, PageCount, Apart, Distinct, OnArena, AllAccounted, LiveOk, SameElsewhere, Here, Untouched;
    FreshArenas(s, p, Header(None, PageCount(size)), PageCount(size));
    NoArenaNoBlocks(s, p);
    PageOf(p, 12);
    BigHere(s, p, size);
    Assemble(s, MallocBig(s, size, Some(p)), 0, p);
  }

  lemma FreeBigUntouched(s: State, b: nat)
    requires Consistent(s) && b in s.live && Page(b) in s.arenas && s.arenas[Page(b)].desc.None?
    ensures b % 4096 == 12 && Untouched(State(s.free, s.arenas - {Page(b)}, s.live - {b}), Page(b))
  {
    hide ArenasOk, AllAccounted, PageCount, Class, Distinct, IsSlot;
    assert LiveAt(s.arenas, b, s.live[b]);
    forall c | c in s.live - {b} ensures Page(c) != Page(b) {
      assert LiveAt(s.arenas, c, s.live[c]);
    }
    forall e, c | 0 <= e < CLASSES && c in s.free[e] ensures Page(c) != Page(b) {
      assert OnArena(s.arenas, e, c);
    }
  }

  lemma FreeBigConsistent(s: State, b: nat)
    requires Consistent(s) && b in s.live && Page(b) in s.arenas && s.arenas[Page(b)].desc.None?
    ensures Consistent(State(s.free, s.arenas - {Page(b)}, s.live - {b}))
  {
    hide Page, Apart, LiveOk, AllAccounted, Distinct, OnArena;
    var p := Page(b);
    var r := State(s.free, s.arenas - {p}, s.live - {b});
    FreeBigUntouched(s, b);
    assert Here(r, p);
    assert SameElsewhere(s, r, 0, p);
    hide Here, SameElsewhere, Untouched;
    Assemble(s, r, 0, p);
  }

  lemma TakeInv(s: State, d: nat, size: nat)
    requires Consistent(s) && d < CLASSES && s.free[d] != [] && InUse(s.arenas, Page(s.free[d][0]))
    requires 0 < size < 0x1_0000_0000 && Class(size) == d
    ensures var b := s.free[d][0];
            && OnArena(s.arenas, d, b) && s.arenas[Page(b)].count > 0
            && Inv(Take(s, d, size))
  {
    hide Page, PerArena, OnArena, Moved, Distinct, ArenasOk, AllAccounted, LiveOk, Class, FreeCount, BlockSize;
    var b := s.free[d][0];
    TakeMoves(s, d, size);
    OnArenaDesc(s.arenas, d, b);
    assert Distinct(s.free[d]);
    MovedConsistent(s, Take(s, d, size), d, b);
    CountBound(s, Page(b));
  }

  lemma OnArenaDesc(arenas: map<nat, Header>, d: nat, b: nat)
    requires OnArena(arenas, d, b)
    ensures Page(b) in arenas && arenas[Page(b)].desc == Some(d)
  {}

  lemma CountBound(s: State, a: nat)
    requires Consistent(s) && a in s.arenas && s.arenas[a].desc.Some?
    ensures s.arenas[a].count <= PerArena(s.arenas[a].desc.value)
  {
    hide FreeCount, PerArena, FreeOk, LiveOk, ArenasOk, Covered;
    var d := s.arenas[a].desc.value;
    assert Accounted(s.free, s.live, a, s.arenas[a]);
    CountAtMost(s.free[d], a, d, PerArena(d));
  }

  // malloc() keeps the invariant.
  lemma MallocInv(s: State, size: nat, grant: Option<nat>)
    requires Inv(s) && size < 0x1_0000_0000 && Grantable(s, size, grant)
    ensures Inv(Malloc(s, size, grant))
  {
    hide Page, PerArena, OnArena, Consistent, Take, Carve, PageCount, Fresh;
    var d := Class(size);
    if size == 0 {
    } else if d == CLASSES {
      if grant.Some? { MallocBigConsistent(s, size, grant.value); }
    } else {
      ConsistentShape(s);
      if s.free[d] != [] {
        InUseMore(s, Page(s.free[d][0]));
        TakeInv(s, d, size);
      } else if grant.Some? {
        CarveInv(s, d, grant.value);
        var c := Carve(s, d, grant.value);
        ConsistentShape(c);
        BlockToArena(grant.value, d, 0) by { FreshShape(s, grant.value, 1); OneFits(d); }
        TakeInv(c, d, size);
      }
    }
  }

  lemma OneFits(d: nat)
    requires d < CLASSES
    ensures PerArena(d) > 1
  {}

  lemma FreshShape(s: State, p: nat, n: nat)
    requires Fresh(s, p, n)
    ensures p % 4096 == 0 && p > 0 && n > 0
  {}

  lemma ConsistentShape(s: State)
    requires Consistent(s)
    ensures |s.free| == CLASSES
  {}

  lemma InUseMore(s: State, p: nat)
    requires InUse(s.arenas, 0) && Consistent(s)
    ensures InUse(s.arenas, p)
  {}

  lemma GiveMoves(s: State, d: nat, b: nat)
    requires Consistent(s) && b in s.live && Page(b) in s.arenas && s.arenas[Page(b)].desc == Some(d) && d < CLASSES
    ensures var r := Give(s, d, b);
            Moved(r, s, d, b) && OnArena(r.arenas, d, b) && Distinct(r.free[d]) && Distinct(s.free[d])
            && Class(s.live[b]) == d && 0 < s.live[b] < 0x1_0000_0000
  {
    hide Page, PerArena, ArenasOk, AllAccounted, FreeCount, Offset, Class;
    assert LiveAt(s.arenas, b, s.live[b]);
    FreeNotLive(s, d, b);
    var l, m := s.free[d], Give(s, d, b).free[d];
    assert forall j | 0 < j < |m| :: m[j] == l[j - 1] && m[j] in l;
  }

  lemma GiveConsistent(s: State, d: nat, b: nat)
    requires Consistent(s) && b in s.live && Page(b) in s.arenas && s.arenas[Page(b)].desc == Some(d) && d < CLASSES
    ensures Consistent(Give(s, d, b))
  {
    hide Consistent, Page, Moved, Distinct, OnArena, Class;
    ConsistentShape(s);
    GiveMoves(s, d, b);
    MovedConsistent(Give(s, d, b), s, d, b);
  }

  // ASSERT(a->free_cnt == d->blocks_per_arena), as free() reaches it after counting one more free block.
  predicate FullIsExact(h: Header) {
    h.desc.Some? && h.count + 1 >= PerArena(h.desc.value) ==> h.count + 1 == PerArena(h.desc.value)
  }

  // free() keeps the invariant, and its assertion that a full arena counts exactly its blocks holds.
  lemma FreeInv(s: State, b: nat)
    requires Inv(s) && (b == 0 || b in s.live)
    ensures Inv(Free(s, b))
    ensures b != 0 ==> (LiveHasArena(s, b); FullIsExact(s.arenas[Page(b)]))
  {
    hide Page, PerArena, Consistent, Drop;
    if b != 0 {
      LiveHasArena(s, b);
      var p := Page(b);
      var h := s.arenas[p];
      if h.desc.None? {
        FreeBigConsistent(s, b);
      } else {
        var d := h.desc.value;
        var g := Give(s, d, b);
        GiveConsistent(s, d, b);
        CountBound(g, p);
        NotNull(s, b);
        if h.count + 1 >= PerArena(d) {
          ReleaseConsistent(g, d, p);
        }
      }
    }
  }

  lemma NotNull(s: State, b: nat)
    requires Consistent(s) && b in s.live
    ensures Page(b) in s.arenas && Page(b) != 0 && b != 0
  {
    hide AllAccounted, FreeOk, Apart, OnArena;
    assert LiveAt(s.arenas, b, s.live[b]);
  }
}
