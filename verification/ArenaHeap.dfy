// malloc(), free(), realloc() and malloc_init() of proj-pregame/src/threads/malloc.c, statement by statement.
module ArenaHeap {
  import opened Common
  import opened Arena
  import opened ArenaProof

  // malloc_init(): the descriptors, from 16 bytes up to but not including half a page.
  method MallocInit() returns (sizes: seq<nat>, perArena: seq<nat>)
    ensures |sizes| == |perArena| == CLASSES <= 10
    ensures forall d | 0 <= d < CLASSES :: sizes[d] == BlockSize(d) && perArena[d] == PerArena(d)
    ensures forall d | 0 <= d < CLASSES - 1 :: sizes[d + 1] == 2 * sizes[d]
  {
    sizes, perArena := [], [];
    var size := 16;
    while size < PAGE / 2
      invariant |sizes| == |perArena| <= CLASSES
      invariant |sizes| < CLASSES ==> size == BlockSize(|sizes|)
      invariant |sizes| == CLASSES ==> size == 2048
      invariant forall d | 0 <= d < |sizes| :: sizes[d] == BlockSize(d) && perArena[d] == PerArena(d)
      decreases CLASSES - |sizes|
    {
      sizes := sizes + [size];
      perArena := perArena + [(PAGE - HEADER) / size];
      size := size * 2;
    }
    assert forall d | 0 <= d < CLASSES - 1 :: BlockSize(d + 1) == 2 * BlockSize(d);
  }

  class Heap {
    const sizes: seq<nat>
    const perArena: seq<nat>
    var free: seq<seq<nat>>
    var arenas: map<nat, Header>
    ghost var live: map<nat, nat>

    ghost function Abs(): State
      reads this
    {
      State(free, arenas, live)
    }

    ghost predicate Tables() {
      && |sizes| == |perArena| == CLASSES
      && forall d | 0 <= d < CLASSES :: sizes[d] == BlockSize(d) && perArena[d] == PerArena(d)
    }

    ghost predicate Valid()
      reads this
    {
      Tables() && Inv(Abs())
    }

    constructor ()
      ensures Valid() && Abs() == Init()
    {
      var s, p := MallocInit();
      sizes, perArena := s, p;
      free, arenas, live := [[], [], [], [], [], [], []], map[], map[];
    }

    // The search for the smallest descriptor that satisfies the request.
    method FindClass(size: nat) returns (d: nat)
      requires Tables()
      ensures d == Class(size)
    {
      d := 0;
      while d < |sizes|
        invariant d <= Class(size)
      {
        if sizes[d] >= size {
          break;
        }
        d := d + 1;
      }
    }

    // The part of malloc() that turns a page into an arena.
    method CarveArena(d: nat, page: nat)
      requires Tables() && d < CLASSES == |free|
      modifies `free, `arenas
      ensures Abs() == Carve(old(Abs()), d, page)
    {
      hide Block, PerArena, Blocks;
      ghost var was := free[d];
      arenas := arenas[page := Header(Some(d), perArena[d])];
      var i: nat := 0;
      BlocksNone(was, page, d);
      while i < perArena[d]
        invariant i <= perArena[d]
        invariant free == old(free)[d := was + Blocks(page, d, i)]
        invariant arenas == old(arenas)[page := Header(Some(d), perArena[d])]
      {
        BlocksMore(was, page, d, i);
        free := free[d := free[d] + [Block(page, d, i)]];
        i := i + 1;
      }
    }

    // The end of malloc(): the first block of the free list goes to the caller.
    method PopBlock(d: nat, ghost size: nat) returns (b: nat)
      requires Takeable(Abs(), d)
      modifies `free, `arenas, `live
      ensures Abs() == Take(old(Abs()), d, size) && b == old(free)[d][0]
    {
      hide Page;
      b := free[d][0];
      var a := Page(b);
      free := free[d := free[d][1..]];
      arenas := arenas[a := arenas[a].(count := arenas[a].count - 1)];
      live := live[b := size];
    }

    // malloc(); `grant` is the page allocator's answer, should it be asked.
    method Malloc(size: nat, grant: Option<nat>) returns (b: nat)
      requires Valid() && size < 0x1_0000_0000 && Grantable(Abs(), size, grant)
      modifies this
      ensures Valid() && Abs() == Arena.Malloc(old(Abs()), size, grant)
      ensures b == Answer(old(Abs()), size, grant)
      ensures b != 0 ==> b !in old(live) && live == old(live)[b := size]
      ensures b == 0 ==> Abs() == old(Abs())
    {
      hide Inv, Page, Carve, Take, PerArena, Grantable, OnArena, Block, PageCount, Class;
      ghost var s := Abs();
      MallocInv(s, size, grant);
      MallocAnswer(s, size, grant);
      InvArenas(s);
      if size == 0 {
        return 0;
      }
      var d := FindClass(size);
      if d == |sizes| {
        MallocBigUnfold(s, size, grant);
        if grant.None? {
          return 0;
        }
        arenas := arenas[grant.value := Header(None, PageCount(size))];
        live := live[grant.value + 12 := size];
        return grant.value + 12;
      }
      MallocSmallUnfold(s, size, grant, d);
      if free[d] == [] {
        if grant.None? {
          return 0;
        }
        CarveArena(d, grant.value);
      }
      b := PopBlock(d, size);
    }

    // The loop of free() that takes every block of an empty arena off the free list.
    method Unlist(d: nat, a: nat)
      requires Tables() && d < CLASSES == |free|
      requires Distinct(free[d]) && forall i: nat | i < PerArena(d) :: Block(a, d, i) in free[d]
      modifies `free
      ensures free == old(free)[d := Drop(old(free)[d], BlockSet(a, d, PerArena(d)))]
    {
      hide Block, PerArena, Drop, Distinct;
      ghost var was := free[d];
      var i: nat := 0;
      DropNone(was);
      assert BlockSet(a, d, 0) == {};
      while i < perArena[d]
        invariant i <= perArena[d]
        invariant free == old(free)[d := Drop(was, BlockSet(a, d, i))]
      {
        UnlistTurn(was, a, d, i);
        free := free[d := ListRemove(free[d], Block(a, d, i))];
        i := i + 1;
      }
    }

    // free()
    method Free(b: nat)
      requires Valid() && (b == 0 || b in live)
      modifies this
      ensures Valid() && Abs() == Arena.Free(old(Abs()), b)
      ensures live == old(live) - {b}
    {
      hide Inv, Page, PerArena, OnArena, Block, Drop, Distinct;
      ghost var s := Abs();
      FreeInv(s, b);
      InvArenas(s);
      ConsistentOf(s);
      if b != 0 {
        LiveHasArena(s, b);
        var a := Page(b);
        var h := arenas[a];
        live := live - {b};
        if h.desc.Some? {
          var d := h.desc.value;
          free := free[d := [b] + free[d]];
          arenas := arenas[a := h.(count := h.count + 1)];
          GivenFull(s, d, b);
          if h.count + 1 >= perArena[d] {
            Unlist(d, a);
            arenas := arenas - {a};
          }
        } else {
          arenas := arenas - {a};
        }
      } else {
        NullNotLive(s);
      }
    }

    // realloc(), with the number of bytes copied from the old block to the new one.
    method Realloc(b: nat, size: nat, grant: Option<nat>) returns (r: nat, copied: int)
      requires Valid() && size < 0x1_0000_0000 && Grantable(Abs(), size, grant) && (b == 0 || b in live)
      modifies this
      ensures Valid() && Abs() == ArenaProof.Realloc(old(Abs()), b, size, grant)
      ensures r == if size == 0 then 0 else Answer(old(Abs()), size, grant)
      ensures r == 0 && size > 0 ==> Abs() == old(Abs())
      ensures live == (if size == 0 then old(live) - {b}
                       else if r == 0 then old(live) else old(live)[r := size] - {b})
      ensures r != 0 && b != 0 ==>
                && Page(b) in old(arenas) && copied == CopyLength(old(Abs()), b, size)
                && copied <= Extent(old(arenas), b) && copied <= size
                && (copied == Extent(old(arenas), b) || copied == size)
    {
      hide Inv, Page, Arena.Malloc, Arena.Free, Answer, Grantable;
      copied := 0;
      ghost var s := Abs();
      if size == 0 {
        Free(b);
        r := 0;
      } else {
        MallocInv(s, size, grant);
        MallocAnswer(s, size, grant);
        if b != 0 { OldKept(s, b, size, grant); }
        r := Malloc(size, grant);
        if b != 0 && r != 0 {
          var old_size := Extent(arenas, b);
          copied := if size < old_size then size else old_size;
          Free(b);
        }
        if b == 0 { NullNotLive(s); }
      }
    }
  }

  // list_remove() of an element that is on the list.
  function ListRemove(list: seq<nat>, b: nat): (r: seq<nat>)
    requires b in list
    ensures |r| == |list| - 1 && multiset(r) == multiset(list) - multiset{b}
  {
    if list[0] == b then
      assert list == [b] + list[1..]; list[1..]
    else
      assert list == [list[0]] + list[1..]; [list[0]] + ListRemove(list[1..], b)
  }

  lemma {:induction false} ListRemoveIsDrop(list: seq<nat>, b: nat)
    requires b in list && Distinct(list)
    ensures ListRemove(list, b) == Drop(list, {b})
  {
    assert forall i | 0 <= i < |list| - 1 :: list[1..][i] == list[i + 1];
    assert list == [list[0]] + list[1..];
    if list[0] == b {
      DropAbsent(list[1..], {b});
    } else {
      ListRemoveIsDrop(list[1..], b);
    }
  }

  lemma {:induction false} DropAbsent(list: seq<nat>, gone: set<nat>)
    requires forall x | x in list :: x !in gone
    ensures Drop(list, gone) == list
  {
    if list != [] { DropAbsent(list[1..], gone); }
  }

  lemma DropNone(list: seq<nat>)
    ensures Drop(list, {}) == list
  {
    DropAbsent(list, {});
  }

  lemma {:induction false} DropDrop(list: seq<nat>, gone: set<nat>, more: set<nat>)
    ensures Drop(Drop(list, gone), more) == Drop(list, gone + more)
  {
    if list != [] {
      DropDrop(list[1..], gone, more);
      var rest := Drop(list[1..], gone);
      assert list[0] !in gone ==> ([list[0]] + rest)[1..] == rest;
    }
  }

  lemma UnlistTurn(was: seq<nat>, a: nat, d: nat, i: nat)
    requires d < CLASSES && i < PerArena(d) && Distinct(was) && Block(a, d, i) in was
    ensures var now := Drop(was, BlockSet(a, d, i));
            Block(a, d, i) in now && ListRemove(now, Block(a, d, i)) == Drop(was, BlockSet(a, d, i + 1))
  {
    hide Block, PerArena, Drop, Distinct, ListRemove;
    var b, now := Block(a, d, i), Drop(was, BlockSet(a, d, i));
    DropMembers(was, BlockSet(a, d, i));
    assert b !in BlockSet(a, d, i) by {
      forall j: nat | j < i ensures Block(a, d, j) != b { BlockInjective(a, d, j, i); }
    }
    DropDistinct(was, BlockSet(a, d, i));
    ListRemoveIsDrop(now, b);
    DropDrop(was, BlockSet(a, d, i), {b});
    assert BlockSet(a, d, i + 1) == BlockSet(a, d, i) + {b};
  }

  lemma ConsistentOf(s: State)
    requires Inv(s)
    ensures Consistent(s)
  {}

  lemma NullNotLive(s: State)
    requires Inv(s)
    ensures 0 !in s.live && s.live - {0} == s.live
  {
    if 0 in s.live { NotNull(s, 0); }
  }

  lemma MallocBigUnfold(s: State, size: nat, grant: Option<nat>)
    requires Inv(s) && Grantable(s, size, grant) && size > 0 && Class(size) == CLASSES
    ensures Arena.Malloc(s, size, grant) == MallocBig(s, size, grant)
    ensures Answer(s, size, grant) == if grant.None? then 0 else grant.value + 12
  {}

  lemma MallocSmallUnfold(s: State, size: nat, grant: Option<nat>, d: nat)
    requires Inv(s) && Grantable(s, size, grant) && size > 0 && Class(size) == d < CLASSES
    ensures |s.free| == CLASSES
    ensures s.free[d] == [] && grant.None? ==>
              Arena.Malloc(s, size, grant) == s && Answer(s, size, grant) == 0
    ensures s.free[d] != [] || grant.Some? ==>
              var c := if s.free[d] == [] then Carve(s, d, grant.value) else s;
              && Consistent(c) && c.free[d] != [] && Takeable(c, d)
              && Arena.Malloc(s, size, grant) == Take(c, d, size)
              && Answer(s, size, grant) == c.free[d][0]
  {
    hide Page, Consistent, Block, PerArena, OnArena, Carve;
    InvArenas(s);
    if s.free[d] != [] {
      CanTake(s, d);
      ConsistentOf(s);
      OnArenaDesc(s.arenas, d, s.free[d][0]);
    } else if grant.Some? {
      CarveInv(s, d, grant.value);
      var c := Carve(s, d, grant.value);
      ConsistentShape(c);
      CanTake(c, d);
      OnArenaDesc(c.arenas, d, c.free[d][0]);
    }
  }

  ghost predicate Takeable(c: State, d: nat) {
    d < |c.free| && c.free[d] != [] && Page(c.free[d][0]) in c.arenas && c.arenas[Page(c.free[d][0])].count > 0
  }

  lemma BlocksNone(list: seq<nat>, a: nat, d: nat)
    ensures list + Blocks(a, d, 0) == list
  {}

  lemma BlocksMore(list: seq<nat>, a: nat, d: nat, i: nat)
    ensures list + Blocks(a, d, i) + [Block(a, d, i)] == list + Blocks(a, d, i + 1)
  {
    hide Block;
    assert Blocks(a, d, i + 1) == Blocks(a, d, i) + [Block(a, d, i)];
  }

  // When free() finds the arena full, all of its blocks are on the free list.
  lemma GivenFull(s: State, d: nat, b: nat)
    requires Inv(s) && b in s.live && Page(b) in s.arenas && s.arenas[Page(b)].desc == Some(d) && d < CLASSES
    ensures |s.free| == CLASSES && Distinct([b] + s.free[d])
    ensures s.arenas[Page(b)].count + 1 >= PerArena(d) ==>
              forall i: nat | i < PerArena(d) :: Block(Page(b), d, i) in [b] + s.free[d]
  {
    hide Page, Block, PerArena, OnArena, FreeCount, Distinct, ArenasOk, LiveOk, FreeOk, InUse;
    ConsistentShape(s);
    GiveConsistent(s, d, b);
    GiveMoves(s, d, b);
    var g := Give(s, d, b);
    assert Accounted(g.free, g.live, Page(b), g.arenas[Page(b)]);
    CountAtMost(g.free[d], Page(b), d, PerArena(d));
  }

  // Arenas stay, with the same descriptor, and big blocks with the same number of pages.
  ghost predicate Kept(s: State, m: State) {
    forall a | a in s.arenas ::
      a in m.arenas && m.arenas[a].desc == s.arenas[a].desc
      && (s.arenas[a].desc.None? ==> m.arenas[a].count == s.arenas[a].count)
  }

  lemma TakeKeeps(c: State, d: nat, size: nat)
    requires Takeable(c, d) && OnArena(c.arenas, d, c.free[d][0])
    ensures Kept(c, Take(c, d, size))
  {
    hide Page, IsSlot;
  }

  lemma MallocKeeps(s: State, size: nat, grant: Option<nat>)
    requires Inv(s) && Grantable(s, size, grant)
    ensures Kept(s, Arena.Malloc(s, size, grant))
  {
    hide Page, OnArena, Class, PageCount, BlockSize, PerArena, Consistent, InUse, Take, Blocks;
    var d := Class(size);
    InvArenas(s);
    if size > 0 && d == CLASSES {
      if grant.Some? { FreshArenas(s, grant.value, Header(None, PageCount(size)), PageCount(size)); }
    } else if size > 0 {
      MallocSmallUnfold(s, size, grant, d);
      if s.free[d] != [] {
        CanTake(s, d);
        TakeKeeps(s, d, size);
      } else if grant.Some? {
        FreshArenas(s, grant.value, Header(Some(d), PerArena(d)), 1);
        var c := Carve(s, d, grant.value);
        CanTake(c, d);
        TakeKeeps(c, d, size);
      }
    }
  }

  // malloc() leaves the old block of realloc() as it was.
  lemma OldKept(s: State, b: nat, size: nat, grant: Option<nat>)
    requires Inv(s) && Grantable(s, size, grant) && b in s.live
    ensures var m := Arena.Malloc(s, size, grant);
            && Page(b) in s.arenas && Page(b) in m.arenas
            && Extent(m.arenas, b) == Extent(s.arenas, b)
  {
    hide Page, Arena.Malloc, BlockSize;
    NotNull(s, b);
    MallocKeeps(s, size, grant);
  }
}
