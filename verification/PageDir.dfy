// Two-level page tables: proj-pregame/src/userprog/pagedir.c over the entry format of
// proj-pregame/src/threads/pte.h.  Bit masks and shifts of 32-bit words are written as the division and
// remainder by the same powers of two.
module PageDir {
  import opened Common

  const PHYS_BASE: nat := 0xc000_0000
  const USER_TABLES: nat := 768          // pd_no(PHYS_BASE)
  const USER_PAGES: nat := 0xc_0000      // 768 tables of 1024 pages

  // ---- pte.h ----

  function PtNo(va: nat): nat { va / 4096 % 1024 }

  function PdNo(va: nat): nat { va / 0x40_0000 }

  function PageNo(va: nat): nat { va / 4096 }

  function Ofs(va: nat): nat { va % 4096 }

  function PdeCreate(pt: nat): nat
    requires pt >= PHYS_BASE
  {
    pt - 0xc000_0000 + 7                 // PTE_U | PTE_P | PTE_W
  }

  function PdeGetPt(pde: nat): nat { pde - pde % 4096 + 0xc000_0000 }

  function PteCreateUser(page: nat, writable: bool): nat
    requires page >= PHYS_BASE
  {
    page - 0xc000_0000 + 5 + if writable then 2 else 0
  }

  function PteGetPage(pte: nat): nat { pte - pte % 4096 + 0xc000_0000 }

  predicate IsPresent(entry: nat) { entry % 2 == 1 }

  predicate IsWritable(entry: nat) { entry / 2 % 2 == 1 }

  // *pte &= ~PTE_P
  function NotPresent(entry: nat): nat { entry - entry % 2 }

  predicate IsKernelPage(p: nat) { p % 4096 == 0 && 0xc000_0000 <= p < 0x1_0000_0000 }

  // An entry gives back the page and the permission it was made from.
  lemma EntryRoundTrip(page: nat, writable: bool)
    requires IsKernelPage(page)
    ensures var pte := PteCreateUser(page, writable);
            && IsPresent(pte) && PteGetPage(pte) == page && (IsWritable(pte) <==> writable)
            && pte / 4 % 2 == 1 && pte < 0x1_0000_0000
    ensures var pde := PdeCreate(page);
            && IsPresent(pde) && PdeGetPt(pde) == page && IsWritable(pde)
            && pde / 4 % 2 == 1 && pde < 0x1_0000_0000
  {
    var q := (page - 0xc000_0000) / 4096;
    FlagBits(q, 7);
    FlagBits(q, 5);
  }

  lemma Divide(n: nat, d: nat, q: nat, r: nat)
    requires d == 2 || d == 4 || d == 4096
    requires n == d * q + r && r < d
    ensures n / d == q && n % d == r
  {
    if d == 2 {} else if d == 4 {} else {}
  }

  // The flags of an entry that points to page number q.
  lemma FlagBits(q: nat, f: nat)
    requires f == 5 || f == 7
    ensures (4096 * q + f) % 4096 == f && (4096 * q + f) % 2 == 1
    ensures (4096 * q + f) / 2 % 2 == 1 <==> f == 7
    ensures (4096 * q + f) / 4 % 2 == 1
  {
    var n, b := 4096 * q + f, if f == 7 then 1 else 0;
    var half, quarter := 2048 * q + 2 + b, 1024 * q + 1;
    Divide(n, 4096, q, f);
    Divide(n, 2, half, 1);
    Divide(half, 2, quarter, b);
    Divide(n, 4, quarter, f - 4);
    Divide(quarter, 2, 512 * q, 1);
  }

  // Clearing the present bit keeps the other bits.
  lemma NotPresentKeepsRest(entry: nat)
    ensures !IsPresent(NotPresent(entry)) && NotPresent(entry) / 2 == entry / 2
    ensures PteGetPage(NotPresent(entry)) == PteGetPage(entry)
  {
    var q, s := entry / 4096, entry % 4096;
    var h, b := s / 2, s % 2;
    assert entry == 2 * (2048 * q + h) + b;
    assert entry - b == 4096 * q + 2 * h;
  }

  // An address is its directory index, table index and offset, and user addresses are those below 768.
  lemma AddressSplits(va: nat)
    requires va < 0x1_0000_0000
    ensures va == PdNo(va) * 0x40_0000 + PtNo(va) * 4096 + Ofs(va)
    ensures PdNo(va) < 1024 && PtNo(va) < 1024 && Ofs(va) < 4096
    ensures PageNo(va) == PdNo(va) * 1024 + PtNo(va)
    ensures PageNo(va) / 1024 == PdNo(va) && PageNo(va) % 1024 == PtNo(va)
    ensures va < PHYS_BASE <==> PdNo(va) < USER_TABLES
    ensures va < PHYS_BASE <==> PageNo(va) < USER_PAGES
  {}

  // ---- The tables and the flat map ----

  type Words = seq<nat>

  function SetWord(words: Words, j: nat, e: nat): Words
    requires j < |words|
  {
    words[j := e]
  }

  datatype Frame = Frame(page: nat, writable: bool)

  // Every user entry of the directory is empty or points to a table of its own.
  ghost predicate Ok(dir: Words, tables: map<nat, Words>) {
    && |dir| == 1024
    && (forall i | 0 <= i < 768 && dir[i] != 0 :: TableOk(tables, dir[i]))
    && (forall i, j | 0 <= i < j < 768 && dir[i] != 0 && dir[j] != 0 :: PdeGetPt(dir[i]) != PdeGetPt(dir[j]))
  }

  ghost predicate TableOk(tables: map<nat, Words>, pde: nat) {
    IsPresent(pde) && PdeGetPt(pde) in tables && |tables[PdeGetPt(pde)]| == 1024
  }

  // The entry for user page n; 0 if there is no table for it.
  ghost function Entry(dir: Words, tables: map<nat, Words>, n: nat): nat
    requires Ok(dir, tables) && n < USER_PAGES
  {
    if dir[n / 1024] == 0 then 0
    else assert TableOk(tables, dir[n / 1024]); tables[PdeGetPt(dir[n / 1024])][n % 1024]
  }

  ghost function FrameAt(dir: Words, tables: map<nat, Words>, n: nat): Option<Frame>
    requires Ok(dir, tables) && n < USER_PAGES
  {
    var e := Entry(dir, tables, n);
    if IsPresent(e) then Some(Frame(PteGetPage(e), IsWritable(e))) else None
  }

  // The mapping as a flat map from user page numbers to frames.
  ghost function Flat(dir: Words, tables: map<nat, Words>): (m: map<nat, Frame>)
    requires Ok(dir, tables)
    ensures forall n: nat :: n in m <==> n < USER_PAGES && FrameAt(dir, tables, n).Some?
    ensures forall n | n in m :: m[n] == FrameAt(dir, tables, n).value
  {
    map n: nat | n < USER_PAGES && FrameAt(dir, tables, n).Some? :: FrameAt(dir, tables, n).value
  }

  lemma FlatByFrames(dir: Words, tables: map<nat, Words>, m: map<nat, Frame>)
    requires Ok(dir, tables)
    requires forall n | n in m :: n < USER_PAGES
    requires forall n: nat | n < USER_PAGES :: FrameAt(dir, tables, n) == if n in m then Some(m[n]) else None
    ensures Flat(dir, tables) == m
  {
    hide FrameAt;
    var f := Flat(dir, tables);
    assert f.Keys == m.Keys;
  }

  // An empty table for a missing entry changes nothing.
  lemma TableAdded(dir: Words, tables: map<nat, Words>, i: nat, pt: nat)
    requires Ok(dir, tables) && i < 768 && dir[i] == 0 && IsKernelPage(pt) && pt !in tables
    ensures var d, t := dir[i := PdeCreate(pt)], tables[pt := seq(1024, _ => 0)];
            && Ok(d, t) && d[i] != 0 && PdeGetPt(d[i]) == pt && d[768..] == dir[768..]
            && (forall n: nat | n < USER_PAGES :: FrameAt(d, t, n) == FrameAt(dir, tables, n))
            && Flat(d, t) == Flat(dir, tables)
  {
    hide PdeGetPt, PdeCreate, PteGetPage, IsWritable, Flat;
    var d, t := dir[i := PdeCreate(pt)], tables[pt := seq(1024, _ => 0)];
    PdeFacts(pt);
    forall k | 0 <= k < 768 && k != i && dir[k] != 0 ensures PdeGetPt(dir[k]) != pt {
      assert TableOk(tables, dir[k]);
    }
    assert Ok(d, t);
    forall n: nat | n < USER_PAGES ensures FrameAt(d, t, n) == FrameAt(dir, tables, n) {
      if n / 1024 != i && dir[n / 1024] != 0 {
        assert TableOk(tables, dir[n / 1024]);
      }
    }
    FlatByFrames(d, t, Flat(dir, tables));
  }

  lemma PdeFacts(pt: nat)
    requires IsKernelPage(pt)
    ensures PdeCreate(pt) != 0 && IsPresent(PdeCreate(pt)) && PdeGetPt(PdeCreate(pt)) == pt
  {
    EntryRoundTrip(pt, true);
    hide IsPresent, PdeGetPt, IsKernelPage, PteCreateUser, PteGetPage, IsWritable;
  }

  // Changing one entry changes what the flat map says of that page only.
  lemma EntryChanged(dir: Words, tables: map<nat, Words>, n: nat, e: nat)
    requires Ok(dir, tables) && n < USER_PAGES && dir[n / 1024] != 0 && TableOk(tables, dir[n / 1024])
    ensures var pt := PdeGetPt(dir[n / 1024]);
            var t := tables[pt := SetWord(tables[pt], n % 1024, e)];
            && Ok(dir, t) && Entry(dir, t, n) == e
            && (forall k: nat | k < USER_PAGES && k != n :: Entry(dir, t, k) == Entry(dir, tables, k))
            && Flat(dir, t) == (if IsPresent(e) then Flat(dir, tables)[n := Frame(PteGetPage(e), IsWritable(e))]
                                else Flat(dir, tables) - {n})
  {
    hide PdeGetPt, PdeCreate, PteGetPage, IsWritable, Flat;
    var pt := PdeGetPt(dir[n / 1024]);
    var t := tables[pt := SetWord(tables[pt], n % 1024, e)];
    assert Ok(dir, t) by {
      forall i | 0 <= i < 768 && dir[i] != 0 ensures TableOk(t, dir[i]) { assert TableOk(tables, dir[i]); }
    }
    forall k: nat | k < USER_PAGES && k != n ensures Entry(dir, t, k) == Entry(dir, tables, k) {
      if dir[k / 1024] != 0 {
        assert TableOk(tables, dir[k / 1024]);
        assert k / 1024 == n / 1024 ==> k % 1024 != n % 1024;
      }
    }
    FlatByFrames(dir, t, if IsPresent(e) then Flat(dir, tables)[n := Frame(PteGetPage(e), IsWritable(e))] else Flat(dir, tables) - {n});
  }

  // ---- What pagedir_destroy() frees ----

  // How many of the user pages below n are mapped to frame x.
  ghost function MappedTo(dir: Words, tables: map<nat, Words>, x: nat, n: nat): nat
    requires Ok(dir, tables) && n <= USER_PAGES
  {
    if n == 0 then 0
    else MappedTo(dir, tables, x, n - 1) + if IsFrame(dir, tables, n - 1, x) then 1 else 0
  }

  ghost predicate IsFrame(dir: Words, tables: map<nat, Words>, n: nat, x: nat)
    requires Ok(dir, tables) && n < USER_PAGES
  {
    FrameAt(dir, tables, n).Some? && FrameAt(dir, tables, n).value.page == x
  }

  // How many of the directory entries below i point to table x.
  ghost function TableOf(dir: Words, x: nat, i: nat): nat
    requires i <= |dir|
  {
    if i == 0 then 0 else TableOf(dir, x, i - 1) + if dir[i - 1] != 0 && PdeGetPt(dir[i - 1]) == x then 1 else 0
  }

  lemma {:induction false} MappedToIsCardinality(dir: Words, tables: map<nat, Words>, x: nat, n: nat)
    requires Ok(dir, tables) && n <= USER_PAGES
    ensures MappedTo(dir, tables, x, n) == |set k: nat | k < n && IsFrame(dir, tables, k, x)|
  {
    hide IsFrame, Ok;
    if n > 0 {
      MappedToIsCardinality(dir, tables, x, n - 1);
      var before := set k: nat | k < n - 1 && IsFrame(dir, tables, k, x);
      var now := set k: nat | k < n && IsFrame(dir, tables, k, x);
      assert now == before + if IsFrame(dir, tables, n - 1, x) then {n - 1} else {};
    }
  }

  // A table belongs to at most one directory entry.
  lemma {:induction false} TableOnce(dir: Words, tables: map<nat, Words>, x: nat, i: nat)
    requires Ok(dir, tables) && i <= 768
    ensures TableOf(dir, x, i) <= 1
    ensures TableOf(dir, x, i) == 1 <==> exists k :: 0 <= k < i && dir[k] != 0 && PdeGetPt(dir[k]) == x
  {
    hide PdeGetPt, TableOk;
    if i > 0 {
      TableOnce(dir, tables, x, i - 1);
    }
  }

  // Pages without a table are not mapped.
  lemma {:induction false} NoTableNoFrames(dir: Words, tables: map<nat, Words>, x: nat, i: nat, j: nat)
    requires Ok(dir, tables) && i < 768 && j <= 1024 && dir[i] == 0
    ensures MappedTo(dir, tables, x, i * 1024 + j) == MappedTo(dir, tables, x, i * 1024)
  {
    if j > 0 {
      NoTableNoFrames(dir, tables, x, i, j - 1);
      assert (i * 1024 + j - 1) / 1024 == i;
    }
  }

  // What is freed, with multiplicity: each mapped frame, each table, and the directory.
  ghost predicate FreesAll(freed: seq<nat>, pd: nat, dir: Words, tables: map<nat, Words>)
    requires Ok(dir, tables)
  {
    forall x :: multiset(freed)[x] == MappedTo(dir, tables, x, USER_PAGES) + TableOf(dir, x, 768) + if x == pd then 1 else 0
  }

  // Two pages share no frame, and no frame is a table or the directory.
  ghost predicate FramesOwned(pd: nat, dir: Words, tables: map<nat, Words>)
    requires Ok(dir, tables)
  {
    && (forall n, m | n in Flat(dir, tables) && m in Flat(dir, tables) && n != m ::
          Flat(dir, tables)[n].page != Flat(dir, tables)[m].page)
    && (forall n | n in Flat(dir, tables) :: Flat(dir, tables)[n].page != pd && TableOf(dir, Flat(dir, tables)[n].page, 768) == 0)
    && TableOf(dir, pd, 768) == 0
  }

  lemma {:induction false} MappedOnce(dir: Words, tables: map<nat, Words>, x: nat, n: nat)
    requires Ok(dir, tables) && n <= USER_PAGES
    ensures MappedTo(dir, tables, x, n) > 0 <==> exists k: nat :: k < n && IsFrame(dir, tables, k, x)
    ensures MappedTo(dir, tables, x, n) > 1 <==> exists k: nat, l: nat :: k < l < n && IsFrame(dir, tables, k, x) && IsFrame(dir, tables, l, x)
  {
    hide IsFrame, Ok;
    if n > 0 {
      MappedOnce(dir, tables, x, n - 1);
    }
  }

  // Every page is freed at most once exactly when the frames are so owned.
  lemma FreedOnceIffOwned(freed: seq<nat>, pd: nat, dir: Words, tables: map<nat, Words>)
    requires Ok(dir, tables) && FreesAll(freed, pd, dir, tables)
    ensures (forall x :: multiset(freed)[x] <= 1) <==> FramesOwned(pd, dir, tables)
  {
    hide FrameAt, Ok, TableOf, MappedTo;
    OkShape(dir, tables);
    var flat := Flat(dir, tables);
    forall x ensures TableOf(dir, x, 768) <= 1 { TableOnce(dir, tables, x, 768); }
    assert forall n: nat, x :: n < USER_PAGES && IsFrame(dir, tables, n, x) <==> n in flat && flat[n].page == x;
    if FramesOwned(pd, dir, tables) {
      forall x ensures multiset(freed)[x] <= 1 {
        MappedOnce(dir, tables, x, USER_PAGES);
      }
    }
    if forall x :: multiset(freed)[x] <= 1 {
      assert multiset(freed)[pd] <= 1;
      forall n | n in flat ensures flat[n].page != pd && TableOf(dir, flat[n].page, 768) == 0 {
        MappedOnce(dir, tables, flat[n].page, USER_PAGES);
        assert IsFrame(dir, tables, n, flat[n].page);
        assert multiset(freed)[flat[n].page] <= 1;
      }
      forall n, m | n in flat && m in flat && n != m ensures flat[n].page != flat[m].page {
        MappedOnce(dir, tables, flat[n].page, USER_PAGES);
        assert multiset(freed)[flat[n].page] <= 1;
        assert IsFrame(dir, tables, n, flat[n].page) && IsFrame(dir, tables, m, flat[m].page);
      }
    }
  }

  // ---- The operations ----

  class AddressSpace {
    const pd: nat                       // the address of the directory's page
    var dir: Words
    var tables: map<nat, Words>         // the page tables of user addresses, by kernel address

    ghost predicate Valid()
      reads this
    {
      Ok(dir, tables)
    }

    // pagedir_create(): the kernel's directory, which maps no user page.
    constructor (page: nat, kernel: Words)
      requires |kernel| == 1024 && forall i | 0 <= i < 768 :: kernel[i] == 0
      ensures Valid() && dir == kernel && tables == map[] && Flat(dir, tables) == map[] && pd == page
    {
      pd, dir, tables := page, kernel, map[];
      new;
      FlatByFrames(dir, tables, map[]);
    }

    // lookup_page() with create set; `grant` is the page allocator's answer, 0 for none.
    method LookupCreate(va: nat, grant: nat) returns (pt: nat, j: nat)
      requires Valid() && va < PHYS_BASE && (grant != 0 ==> IsKernelPage(grant) && grant !in tables)
      modifies this
      ensures Valid() && Flat(dir, tables) == old(Flat(dir, tables)) && dir[768..] == old(dir)[768..]
      ensures pt == 0 <==> old(dir)[PdNo(va)] == 0 && grant == 0
      ensures pt == 0 ==> dir == old(dir) && tables == old(tables)
      ensures pt != 0 ==> dir[PdNo(va)] != 0 && pt == PdeGetPt(dir[PdNo(va)]) && j == PtNo(va)
    {
      hide Ok, Flat, PdeGetPt, PdeCreate, PdNo, PtNo;
      AddressSplits(va);
      OkShape(dir, tables);
      var i := PdNo(va);
      pt, j := 0, PtNo(va);
      if dir[i] == 0 {
        if grant == 0 {
          return;
        }
        TableAdded(dir, tables, i, grant);
        tables := tables[grant := seq(1024, _ => 0)];
        dir := dir[i := PdeCreate(grant)];
      }
      pt := PdeGetPt(dir[i]);
      PtNotNull(dir[i]);
    }

    // pagedir_set_page()
    method SetPage(upage: nat, kpage: nat, writable: bool, grant: nat) returns (ok: bool)
      requires Valid() && upage % 4096 == 0 && upage < PHYS_BASE && IsKernelPage(kpage)
      requires grant != 0 ==> IsKernelPage(grant) && grant !in tables
      requires PageNo(upage) !in Flat(dir, tables)
      modifies this
      ensures Valid() && dir[768..] == old(dir)[768..]
      ensures ok <==> old(dir)[PdNo(upage)] != 0 || grant != 0
      ensures ok ==> dir[PdNo(upage)] != 0
      ensures Flat(dir, tables) == if ok then old(Flat(dir, tables))[PageNo(upage) := Frame(kpage, writable)]
                                   else old(Flat(dir, tables))
    {
      hide Ok, Flat, PdeGetPt, PdeCreate, PdNo, PtNo, PageNo, IsPresent, PteGetPage, PteCreateUser, IsWritable;
      AddressSplits(upage);
      OkShape(dir, tables);
      var pt, j := LookupCreate(upage, grant);
      ok := pt != 0;
      if ok {
        var n := PageNo(upage);
        OkShape(dir, tables);
        EntryRoundTrip(kpage, writable);
        TableAt(dir, tables, n / 1024);
        EntryChanged(dir, tables, n, PteCreateUser(kpage, writable));
        tables := tables[pt := SetWord(tables[pt], j, PteCreateUser(kpage, writable))];
      }
    }

    // pagedir_get_page()
    method GetPage(uaddr: nat) returns (r: nat)
      requires Valid() && uaddr < PHYS_BASE
      ensures r == if PageNo(uaddr) in Flat(dir, tables) then Flat(dir, tables)[PageNo(uaddr)].page + Ofs(uaddr) else 0
      ensures r == 0 <==> PageNo(uaddr) !in Flat(dir, tables)
    {
      hide Ok, PdeGetPt, PdNo, PtNo, PageNo, IsPresent, PteGetPage;
      AddressSplits(uaddr);
      OkShape(dir, tables);
      var i := PdNo(uaddr);
      if dir[i] == 0 {
        NothingPresent();
        return 0;
      }
      TableAt(dir, tables, i);
      var e := tables[PdeGetPt(dir[i])][PtNo(uaddr)];
      if IsPresent(e) {
        r := PteGetPage(e) + uaddr % 4096;
        PtNotNull(e);
      } else {
        r := 0;
      }
    }

    // pagedir_clear_page()
    method ClearPage(upage: nat)
      requires Valid() && upage % 4096 == 0 && upage < PHYS_BASE
      modifies `tables
      ensures Valid() && Flat(dir, tables) == old(Flat(dir, tables)) - {PageNo(upage)}
      ensures forall k: nat | k < USER_PAGES :: Entry(dir, tables, k)
                == if k == PageNo(upage) then NotPresent(old(Entry(dir, tables, k))) else old(Entry(dir, tables, k))
    {
      hide Ok, Flat, PdeGetPt, PdNo, PtNo, PageNo, IsPresent, PteGetPage, IsWritable;
      AddressSplits(upage);
      OkShape(dir, tables);
      NothingPresent();
      var i, n := PdNo(upage), PageNo(upage);
      if dir[i] != 0 {
        var pt, j := PdeGetPt(dir[i]), PtNo(upage);
        TableAt(dir, tables, i);
        var e := tables[pt][j];
        ClearedFlat(dir, tables, n);
        if IsPresent(e) {
          NotPresentKeepsRest(e);
          EntryChanged(dir, tables, n, NotPresent(e));
          tables := tables[pt := SetWord(tables[pt], j, NotPresent(e))];
        }
      } else {
        ClearedFlat(dir, tables, n);
      }
    }

    // pagedir_destroy(): the pages given to palloc_free_page(), in order.
    method Destroy() returns (freed: seq<nat>)
      requires Valid()
      ensures FreesAll(freed, pd, dir, tables)
    {
      hide Ok, PdeGetPt, PteGetPage, IsPresent, FreedSoFar, FreesAll;
      OkShape(dir, tables);
      freed := [];
      FreedStarts(dir, tables);
      var i: nat := 0;
      while i < 768
        invariant i <= 768 && FreedSoFar(freed, dir, tables, i, 0)
      {
        PresentEntry(dir, tables, i);
        if IsPresent(dir[i]) {
          var pt := PdeGetPt(dir[i]);
          TableAt(dir, tables, i);
          var j: nat := 0;
          while j < 1024
            invariant j <= 1024 && FreedSoFar(freed, dir, tables, i, j)
          {
            FreedFrame(freed, dir, tables, i, j);
            if IsPresent(tables[pt][j]) {
              freed := freed + [PteGetPage(tables[pt][j])];
            }
            j := j + 1;
          }
          FreedTable(freed, dir, tables, i);
          freed := freed + [pt];
        } else {
          FreedNothing(freed, dir, tables, i);
        }
        i := i + 1;
      }
      FreedEnds(freed, pd, dir, tables);
      freed := freed + [pd];
    }
  }

  // Two user pages mapped to one frame: destroying the address space frees a page twice.
  method SharedFrameExample() returns (freed: seq<nat>)
    ensures exists x :: multiset(freed)[x] > 1
  {
    hide Ok, PdeGetPt, FrameAt, FreesAll, Flat;
    var space := new AddressSpace(0xc000_0000, seq(1024, _ => 0));
    var first := space.SetPage(0, 0xc000_2000, true, 0xc000_1000);
    var second := space.SetPage(4096, 0xc000_2000, true, 0);
    ghost var flat := Flat(space.dir, space.tables);
    assert 0 in flat && 1 in flat && flat[0].page == flat[1].page;
    freed := space.Destroy();
    FreedOnceIffOwned(freed, space.pd, space.dir, space.tables);
  }

  // Before the j-th entry of the i-th table is looked at.
  ghost predicate FreedSoFar(freed: seq<nat>, dir: Words, tables: map<nat, Words>, i: nat, j: nat)
    requires Ok(dir, tables) && i <= 768 && j <= 1024 && (i == 768 ==> j == 0)
  {
    |dir| == 1024 &&
    forall x :: multiset(freed)[x] == MappedTo(dir, tables, x, i * 1024 + j) + TableOf(dir, x, i)
  }

  lemma Appended(freed: seq<nat>, y: nat)
    ensures forall x :: multiset(freed + [y])[x] == multiset(freed)[x] + if x == y then 1 else 0
  {}

  lemma FreedStarts(dir: Words, tables: map<nat, Words>)
    requires Ok(dir, tables)
    ensures FreedSoFar([], dir, tables, 0, 0)
  {}

  lemma FreedFrame(freed: seq<nat>, dir: Words, tables: map<nat, Words>, i: nat, j: nat)
    requires Ok(dir, tables) && i < 768 && j < 1024 && dir[i] != 0 && TableOk(tables, dir[i])
    requires FreedSoFar(freed, dir, tables, i, j)
    ensures var e := tables[PdeGetPt(dir[i])][j];
            FreedSoFar(if IsPresent(e) then freed + [PteGetPage(e)] else freed, dir, tables, i, j + 1)
  {
    hide Ok, PdeGetPt, FrameAt, PteGetPage, IsPresent, TableOf;
    EntryFrame(dir, tables, i, j);
    Appended(freed, PteGetPage(tables[PdeGetPt(dir[i])][j]));
  }

  lemma FreedTable(freed: seq<nat>, dir: Words, tables: map<nat, Words>, i: nat)
    requires Ok(dir, tables) && i < 768 && dir[i] != 0 && FreedSoFar(freed, dir, tables, i, 1024)
    ensures FreedSoFar(freed + [PdeGetPt(dir[i])], dir, tables, i + 1, 0)
  {
    hide Ok, PdeGetPt, MappedTo;
    Appended(freed, PdeGetPt(dir[i]));
  }

  lemma FreedNothing(freed: seq<nat>, dir: Words, tables: map<nat, Words>, i: nat)
    requires Ok(dir, tables) && i < 768 && dir[i] == 0 && FreedSoFar(freed, dir, tables, i, 0)
    ensures FreedSoFar(freed, dir, tables, i + 1, 0)
  {
    hide Ok, PdeGetPt, MappedTo;
    forall x ensures MappedTo(dir, tables, x, i * 1024 + 1024) == MappedTo(dir, tables, x, i * 1024) {
      NoTableNoFrames(dir, tables, x, i, 1024);
    }
  }

  lemma FreedEnds(freed: seq<nat>, pd: nat, dir: Words, tables: map<nat, Words>)
    requires Ok(dir, tables) && FreedSoFar(freed, dir, tables, 768, 0)
    ensures FreesAll(freed + [pd], pd, dir, tables)
  {
    hide Ok, MappedTo, TableOf;
    Appended(freed, pd);
  }

  lemma OkShape(dir: Words, tables: map<nat, Words>)
    requires Ok(dir, tables)
    ensures |dir| == 1024
  {}

  lemma PtNotNull(entry: nat)
    ensures PdeGetPt(entry) > 0 && PteGetPage(entry) > 0
  {}

  lemma NothingPresent()
    ensures !IsPresent(0) && NotPresent(0) == 0
    ensures forall e: nat :: !IsPresent(e) ==> NotPresent(e) == e
  {}

  lemma TableAt(dir: Words, tables: map<nat, Words>, i: nat)
    requires Ok(dir, tables) && i < 768 && dir[i] != 0
    ensures TableOk(tables, dir[i])
  {}

  lemma PresentEntry(dir: Words, tables: map<nat, Words>, i: nat)
    requires Ok(dir, tables) && i < 768
    ensures IsPresent(dir[i]) <==> dir[i] != 0
  {
    if dir[i] != 0 { assert TableOk(tables, dir[i]); }
  }

  lemma EntryFrame(dir: Words, tables: map<nat, Words>, i: nat, j: nat)
    requires Ok(dir, tables) && i < 768 && j < 1024 && dir[i] != 0
    ensures (TableAt(dir, tables, i);
             var e := tables[PdeGetPt(dir[i])][j];
             FrameAt(dir, tables, i * 1024 + j) == if IsPresent(e) then Some(Frame(PteGetPage(e), IsWritable(e))) else None)
  {
    hide PdeGetPt, PteGetPage, IsWritable, IsPresent, Ok;
    TableAt(dir, tables, i);
    assert (i * 1024 + j) / 1024 == i && (i * 1024 + j) % 1024 == j;
  }

  // A page that is not present is not in the flat map.
  lemma ClearedFlat(dir: Words, tables: map<nat, Words>, n: nat)
    requires Ok(dir, tables) && n < USER_PAGES
    ensures !IsPresent(Entry(dir, tables, n)) ==> Flat(dir, tables) - {n} == Flat(dir, tables)
  {
    hide Ok, Entry;
  }
}
