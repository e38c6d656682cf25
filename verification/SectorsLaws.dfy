// What the file system's calls do to references, files and sectors, counted off the actions of a run.
module SectorsLaws {
  import opened Common
  import opened Inode
  import opened Sectors

  // ---- References ----

  // The in-memory inode at address x is that of the sector.
  predicate IsOf(open: seq<Mem>, x: nat, sector: nat) {
    exists i :: 0 <= i < |open| && open[i].addr == x && open[i].sector == sector
  }

  predicate SectorOpen(open: seq<Mem>, sector: nat) {
    exists i :: 0 <= i < |open| && open[i].sector == sector
  }

  // The call hands out a reference to the in-memory inode at x: an open of its sector, or of a sector that was not
  // open and for which x is the new address; or a reopen of x.
  predicate HandsOut(s: State, a: Action, x: nat) {
    x != 0 &&
    match a
    case Open(sector, addr) => IsOf(s.open, x, sector) || (!SectorOpen(s.open, sector) && addr == x)
    case Reopen(addr) => addr == x
    case _ => false
  }

  function Change(s: State, a: Action, x: nat): int {
    if HandsOut(s, a, x) then 1 else if a == Close(x) && x != 0 then -1 else 0
  }

  // The references to x that the run hands out, less those it closes.
  ghost function References(s: State, run: seq<Action>, x: nat): int
    requires Inv(s) && AllEnabled(s, run)
    decreases |run|
  {
    if run == [] then 0
    else StepInv(s, run[0]); Change(s, run[0], x) + References(Step(s, run[0]), run[1..], x)
  }

  // open_cnt of the in-memory inode at x; 0 if there is none.
  function OpenCount(open: seq<Mem>, x: nat): nat {
    var i := FindAddr(open, x, 0);
    if i < |open| then open[i].openCnt else 0
  }

  predicate IsRemoved(open: seq<Mem>, x: nat) {
    var i := FindAddr(open, x, 0);
    i < |open| && open[i].removed
  }

  // With addresses all different, the place of an address is where it stands.
  lemma Place(open: seq<Mem>, i: nat)
    requires OneEach(open) && i < |open|
    ensures FindAddr(open, open[i].addr, 0) == i
  {
    hide FindAddr;
  }

  lemma Missing(open: seq<Mem>, x: nat)
    requires FindAddr(open, x, 0) == |open|
    ensures !IsOpen(open, x) && OpenCount(open, x) == 0
  {}

  lemma StateShape(s: State)
    requires Inv(s)
    ensures OneEach(s.open) && forall i | 0 <= i < |s.open| :: s.open[i].openCnt > 0 && s.open[i].addr > 0
  {
    hide Blocks;
    forall i | 0 <= i < |s.open| ensures s.open[i].openCnt > 0 && s.open[i].addr > 0 {
      assert MemOk(s.disk, s.files, s.open[i]);
    }
  }

  // Replacing the inode at place i, with the same address and sector.
  lemma Replaced(open: seq<Mem>, i: nat, m: Mem, x: nat)
    requires OneEach(open) && i < |open| && m.addr == open[i].addr && m.sector == open[i].sector
    ensures OneEach(open[i := m])
    ensures OpenCount(open[i := m], x) == if x == m.addr then m.openCnt else OpenCount(open, x)
    ensures IsRemoved(open[i := m], x) == if x == m.addr then m.removed else IsRemoved(open, x)
  {
    var r := open[i := m];
    assert OneEach(r);
    hide FindAddr;
    SamePlace(open, r, x);
    Place(r, i);
  }

  lemma SamePlace(open: seq<Mem>, other: seq<Mem>, x: nat)
    requires |open| == |other| && forall i | 0 <= i < |open| :: open[i].addr == other[i].addr
    ensures FindAddr(open, x, 0) == FindAddr(other, x, 0)
  {
    hide FindAddr;
    var i, j := FindAddr(open, x, 0), FindAddr(other, x, 0);
    assert i >= j && j >= i;
  }

  lemma Dropped(open: seq<Mem>, i: nat, x: nat)
    requires OneEach(open) && i < |open|
    ensures var r := open[..i] + open[i + 1..];
            && OpenCount(r, x) == (if x == open[i].addr then 0 else OpenCount(open, x))
            && IsRemoved(r, x) == (x != open[i].addr && IsRemoved(open, x))
  {
    OneEachDropped(open, i);
    var r := open[..i] + open[i + 1..];
    var j := FindAddr(open, x, 0);
    var k := FindAddr(r, x, 0);
    hide FindAddr;
    Place(open, i);
    assert forall l | 0 <= l < |r| :: r[l] == open[if l < i then l else l + 1];
    if x == open[i].addr {
      assert k == |r|;
    } else if j < |open| {
      var l := if j < i then j else j - 1;
      assert r[l] == open[j];
      Place(r, l);
    } else {
      assert k == |r|;
    }
  }

  lemma Pushed(open: seq<Mem>, m: Mem, x: nat)
    requires OneEach([m] + open)
    ensures OpenCount([m] + open, x) == if x == m.addr then m.openCnt else OpenCount(open, x)
    ensures IsRemoved([m] + open, x) == if x == m.addr then m.removed else IsRemoved(open, x)
  {
    var r := [m] + open;
    var j, k := FindAddr(open, x, 0), FindAddr(r, x, 0);
    hide FindAddr;
    Place(r, 0);
    if x != m.addr {
      if j < |open| {
        assert r[j + 1] == open[j];
        Place(r, j + 1);
      } else {
        assert forall l | 0 < l < |r| :: r[l] == open[l - 1];
        assert k == |r|;
      }
    }
  }

  // Every step changes open_cnt by the references it hands out and closes, and the mark only by a removal.
  lemma StepReferences(s: State, a: Action, x: nat)
    requires Inv(s) && Enabled(s, a)
    ensures OpenCount(Step(s, a).open, x) == OpenCount(s.open, x) + Change(s, a, x)
    ensures OpenCount(Step(s, a).open, x) > 0 ==>
              (IsRemoved(Step(s, a).open, x) <==> a == Remove(x) || IsRemoved(s.open, x))
  {
    hide Inv, OneEach, OpenCount, IsRemoved, FindAddr, FindSector, CreateStep;
    StateShape(s);
    StepInv(s, a);
    StateShape(Step(s, a));
    match a
    case Create(length, o) => CreateKeepsOpen(s, length, o);
    case Open(sector, addr) => OpenReferences(s, sector, addr, x);
    case Reopen(addr) =>
      if addr != 0 {
        FoundAddr(s.open, addr);
        var i := FindAddr(s.open, addr, 0);
        Counted(s.open, i);
        Replaced(s.open, i, s.open[i].(openCnt := s.open[i].openCnt + 1), x);
      }
    case Remove(addr) =>
      FoundAddr(s.open, addr);
      var i := FindAddr(s.open, addr, 0);
      Counted(s.open, i);
      Replaced(s.open, i, s.open[i].(removed := true), x);
    case Close(addr) => if addr != 0 { CloseReferences(s, addr, x); }
  }

  lemma FoundAddr(open: seq<Mem>, addr: nat)
    requires IsOpen(open, addr)
    ensures FindAddr(open, addr, 0) < |open| && open[FindAddr(open, addr, 0)].addr == addr
  {}

  lemma Counted(open: seq<Mem>, i: nat)
    requires OneEach(open) && i < |open|
    ensures OpenCount(open, open[i].addr) == open[i].openCnt && IsRemoved(open, open[i].addr) == open[i].removed
  {
    Place(open, i);
  }

  lemma CreateKeepsOpen(s: State, length: nat, o: Outcome)
    requires length <= 0x7fff_ffff
    ensures CreateStep(s, length, o).open == s.open
  {
    hide Allocate, Mark, Sectors32, DataSectors;
  }

  lemma OpenReferences(s: State, sector: nat, addr: nat, x: nat)
    requires Inv(s) && Enabled(s, Open(sector, addr)) && OneEach(s.open) && OneEach(Step(s, Open(sector, addr)).open)
    requires forall i | 0 <= i < |s.open| :: s.open[i].addr > 0
    ensures var r := Step(s, Open(sector, addr));
            && OpenCount(r.open, x) == OpenCount(s.open, x) + Change(s, Open(sector, addr), x)
            && (OpenCount(r.open, x) > 0 ==> (IsRemoved(r.open, x) <==> IsRemoved(s.open, x)))
  {
    hide Inv, OpenCount, IsRemoved, FindAddr;
    var i := FindSector(s.open, sector, 0);
    if i < |s.open| {
      var m := s.open[i];
      Counted(s.open, i);
      Replaced(s.open, i, m.(openCnt := m.openCnt + 1), x);
      assert IsOf(s.open, m.addr, sector);
      assert SectorOpen(s.open, sector);
      assert IsOf(s.open, x, sector) ==> x == m.addr;
    } else {
      assert !SectorOpen(s.open, sector) && !IsOf(s.open, x, sector);
      if addr != 0 {
        NamedAt(s, sector);
        NotOpenCounts(s.open, addr);
        Pushed(s.open, Mem(addr, sector, 1, false, s.disk[sector]), x);
      }
    }
  }

  lemma NotOpenCounts(open: seq<Mem>, addr: nat)
    requires !IsOpen(open, addr)
    ensures OpenCount(open, addr) == 0 && !IsRemoved(open, addr)
  {}

  lemma CloseReferences(s: State, addr: nat, x: nat)
    requires Inv(s) && Enabled(s, Close(addr)) && addr != 0 && OneEach(s.open)
    requires forall i | 0 <= i < |s.open| :: s.open[i].openCnt > 0
    ensures var r := Step(s, Close(addr));
            && OpenCount(r.open, x) == OpenCount(s.open, x) + Change(s, Close(addr), x)
            && (OpenCount(r.open, x) > 0 ==> (IsRemoved(r.open, x) <==> IsRemoved(s.open, x)))
  {
    hide Inv, OpenCount, IsRemoved, FindAddr, OneEach, Sectors32, Mark;
    FoundAddr(s.open, addr);
    var i := FindAddr(s.open, addr, 0);
    MemAt(s, i);
    var m := s.open[i];
    Counted(s.open, i);
    if m.openCnt > 1 {
      Replaced(s.open, i, m.(openCnt := m.openCnt - 1), x);
    } else {
      Dropped(s.open, i, x);
    }
  }

  lemma {:induction false} ReferencesOverRun(s: State, run: seq<Action>, x: nat)
    requires Inv(s) && AllEnabled(s, run)
    ensures OpenCount(After(s, run).open, x) == OpenCount(s.open, x) + References(s, run, x)
    decreases |run|
  {
    hide Inv, Step, Enabled, OpenCount, Change;
    if run != [] {
      StepInv(s, run[0]);
      StepReferences(s, run[0], x);
      ReferencesOverRun(Step(s, run[0]), run[1..], x);
    }
  }

  // From a formatted device on, open_cnt of the inode at x is the number of references to x that are outstanding.
  lemma OpenCountsReferences(sectors: nat, fsMap: nat, root: nat, run: seq<Action>, x: nat)
    requires Formattable(sectors, fsMap, root)
    requires (InitInv(sectors, fsMap, root); AllEnabled(Init(sectors, fsMap, root), run))
    ensures (InitInv(sectors, fsMap, root);
             var s := Init(sectors, fsMap, root);
             OpenCount(After(s, run).open, x) == References(s, run, x))
  {
    hide Inv, AllEnabled, After, References;
    InitInv(sectors, fsMap, root);
    ReferencesOverRun(Init(sectors, fsMap, root), run, x);
  }

  // ---- Removal ----

  // An inode is marked removed only by a removal of it in the run.
  lemma {:induction false} RemovedByRemove(s: State, run: seq<Action>, x: nat)
    requires Inv(s) && AllEnabled(s, run) && !IsRemoved(s.open, x) && IsRemoved(After(s, run).open, x)
    ensures exists i :: 0 <= i < |run| && run[i] == Remove(x)
    decreases |run|
  {
    hide Inv, Step, Enabled, IsRemoved, OpenCount, Change;
    if run != [] {
      StepInv(s, run[0]);
      StepReferences(s, run[0], x);
      RemovedIsOpen(Step(s, run[0]), x);
      if run[0] == Remove(x) {
        assert run[0] == Remove(x);
      } else {
        RemovedByRemove(Step(s, run[0]), run[1..], x);
        var i :| 0 <= i < |run[1..]| && run[1..][i] == Remove(x);
        assert run[i + 1] == Remove(x);
      }
    }
  }

  lemma RemovedIsOpen(s: State, x: nat)
    requires Inv(s)
    ensures IsRemoved(s.open, x) ==> OpenCount(s.open, x) > 0
  {
    StateShape(s);
    hide Inv;
  }

  // The inode at x is that of f, is open, and has been removed.
  ghost predicate Doomed(s: State, x: nat, f: nat) {
    IsOf(s.open, x, f) && OpenCount(s.open, x) > 0 && IsRemoved(s.open, x)
  }

  lemma RemoveDooms(s: State, x: nat, f: nat)
    requires Inv(s) && Enabled(s, Remove(x)) && IsOf(s.open, x, f)
    ensures Doomed(Step(s, Remove(x)), x, f)
    ensures OpenCount(Step(s, Remove(x)).open, x) == OpenCount(s.open, x)
  {
    hide Inv, OpenCount, IsRemoved, OneEach, FindAddr;
    StateShape(s);
    var i :| 0 <= i < |s.open| && s.open[i].addr == x && s.open[i].sector == f;
    Counted(s.open, i);
    StepReferences(s, Remove(x), x);
    SectorStays(s, Remove(x), x, f);
  }

  // While it stays open, an in-memory inode stays that of its sector.
  lemma SectorStays(s: State, a: Action, x: nat, f: nat)
    requires Inv(s) && Enabled(s, a) && IsOf(s.open, x, f) && OpenCount(Step(s, a).open, x) > 0
    ensures IsOf(Step(s, a).open, x, f)
  {
    hide Inv, OneEach, CreateStep, FindSector;
    StateShape(s);
    StepInv(s, a);
    StateShape(Step(s, a));
    var i: nat :| i < |s.open| && s.open[i].addr == x && s.open[i].sector == f;
    var r := Step(s, a);
    match a
    case Create(length, o) => CreateKeepsOpen(s, length, o);
    case Open(sector, addr) =>
      if FindSector(s.open, sector, 0) < |s.open| {
        assert r.open[i].addr == x && r.open[i].sector == f;
      } else if addr != 0 {
        assert r.open[i + 1] == s.open[i];
      }
    case Reopen(addr) => assert r.open[i].addr == x && r.open[i].sector == f;
    case Remove(addr) => assert r.open[i].addr == x && r.open[i].sector == f;
    case Close(addr) =>
      if addr != 0 {
        CloseKeepsOthers(s, addr, x, f, i);
      }
  }

  lemma CloseKeepsOthers(s: State, addr: nat, x: nat, f: nat, i: nat)
    requires Inv(s) && Enabled(s, Close(addr)) && addr != 0 && OneEach(s.open)
    requires i < |s.open| && s.open[i].addr == x && s.open[i].sector == f && OpenCount(Step(s, Close(addr)).open, x) > 0
    ensures IsOf(Step(s, Close(addr)).open, x, f)
  {
    hide Inv, OneEach, Sectors32, Mark, OpenCount, FindAddr;
    FoundAddr(s.open, addr);
    var j := FindAddr(s.open, addr, 0);
    MemAt(s, j);
    var r := Step(s, Close(addr));
    if s.open[j].openCnt > 1 {
      assert r.open[i].addr == x && r.open[i].sector == f;
    } else {
      Dropped(s.open, j, x);
      assert i != j;
      assert r.open[if i < j then i else i - 1] == s.open[i];
    }
  }

  // The step that takes the references of a removed inode to none is its last close, and no other is.
  lemma DoomedStep(s: State, a: Action, x: nat, f: nat)
    requires Inv(s) && Enabled(s, a) && Doomed(s, x, f)
    ensures LastClose(s, a, f) <==> OpenCount(s.open, x) + Change(s, a, x) == 0
    ensures OpenCount(s.open, x) + Change(s, a, x) > 0 ==> Doomed(Step(s, a), x, f)
  {
    hide Inv, OpenCount, IsRemoved, OneEach, FindAddr;
    StateShape(s);
    StepReferences(s, a, x);
    var i: nat :| i < |s.open| && s.open[i].addr == x && s.open[i].sector == f;
    Counted(s.open, i);
    Place(s.open, i);
    if OpenCount(s.open, x) + Change(s, a, x) > 0 {
      SectorStays(s, a, x, f);
    }
    if a.Close? && IsOpen(s.open, a.addr) {
      FoundAddr(s.open, a.addr);
      SameSector(s.open, FindAddr(s.open, a.addr, 0), i);
    }
  }

  lemma SameSector(open: seq<Mem>, i: nat, j: nat)
    requires OneEach(open) && i < |open| && j < |open|
    ensures open[i].sector == open[j].sector ==> i == j
  {}

  // A run that begins with the removal of an open inode of f and takes its references to none: until its last step f
  // keeps all of its sectors, and then they are free and f is no file.
  lemma {:induction false} DoomedRun(s: State, x: nat, f: nat, sectors: set<nat>, run: seq<Action>)
    requires Inv(s) && AllEnabled(s, run) && Doomed(s, x, f) && Keeps(s, f, sectors) && run != []
    requires OpenCount(s.open, x) + References(s, run, x) == 0
    requires forall i | 0 <= i < |run| :: AllEnabled(s, run[..i]) && OpenCount(s.open, x) + References(s, run[..i], x) > 0
    ensures AllEnabled(s, run[..|run| - 1]) && KeepsThroughout(s, run[..|run| - 1], f, sectors)
    ensures Released(After(s, run), f, sectors)
    decreases |run|
  {
    hide Inv, Step, Enabled, Doomed, Keeps, Released, LastClose, OpenCount, Change;
    var a, r, rest := run[0], Step(s, run[0]), run[1..];
    StepInv(s, a);
    DoomedStep(s, a, x, f);
    StepReferences(s, a, x);
    StepKeepsOrReleases(s, a, f, sectors);
    if |run| == 1 {
      assert rest == [] && run[..0] == [];
      assert References(r, rest, x) == 0 && After(r, rest) == r;
    } else {
      assert run[..1] == [a] && [a][1..] == [];
      assert References(s, run[..1], x) == Change(s, a, x) by { OneReference(s, a, x); }
      forall i | 0 <= i < |rest|
        ensures AllEnabled(r, rest[..i]) && OpenCount(r.open, x) + References(r, rest[..i], x) > 0
      {
        assert run[..i + 1][0] == a && run[..i + 1][1..] == rest[..i];
        assert AllEnabled(s, run[..i + 1]);
      }
      DoomedRun(r, x, f, sectors, rest);
      var m := |run| - 1;
      assert run[..m][0] == a && run[..m][1..] == rest[..|rest| - 1];
    }
  }

  lemma OneReference(s: State, a: Action, x: nat)
    requires Inv(s) && Enabled(s, a) && AllEnabled(s, [a])
    ensures References(s, [a], x) == Change(s, a, x)
  {
    hide Inv, Step, Enabled, Change;
    StepInv(s, a);
    assert [a][1..] == [];
    assert References(Step(s, a), [], x) == 0;
  }

  // inode_remove() followed, in any run, by the closes that take the references to none.
  lemma RemovedThenClosed(s: State, x: nat, f: nat, run: seq<Action>)
    requires Inv(s) && Enabled(s, Remove(x)) && IsOf(s.open, x, f) && run != []
    requires (StepInv(s, Remove(x)); AllEnabled(Step(s, Remove(x)), run))
    requires (StepInv(s, Remove(x));
              var r := Step(s, Remove(x));
              && OpenCount(s.open, x) + References(r, run, x) == 0
              && forall i | 0 <= i < |run| :: AllEnabled(r, run[..i]) && OpenCount(s.open, x) + References(r, run[..i], x) > 0)
    ensures f in s.files && f in s.disk && s.disk[f].length <= 0x7fff_ffff
    ensures (StepInv(s, Remove(x));
             var r, own := Step(s, Remove(x)), Owned(s.disk, f);
             && AllEnabled(r, run[..|run| - 1]) && KeepsThroughout(r, run[..|run| - 1], f, own)
             && Released(After(r, run), f, own))
  {
    hide Inv, Step, Enabled, Doomed, Released, AllEnabled, After, KeepsThroughout, References, OpenCount;
    StepInv(s, Remove(x));
    OpenIsFile(s, x, f);
    FileKeeps(s, f);
    RemoveDooms(s, x, f);
    RemoveKeepsAll(s, x, f);
    DoomedRun(Step(s, Remove(x)), x, f, Owned(s.disk, f), run);
  }

  lemma OpenIsFile(s: State, x: nat, f: nat)
    requires Inv(s) && IsOf(s.open, x, f)
    ensures f in s.files
  {
    hide Blocks;
    var i :| 0 <= i < |s.open| && s.open[i].addr == x && s.open[i].sector == f;
    assert MemOk(s.disk, s.files, s.open[i]);
  }

  lemma RemoveKeepsAll(s: State, x: nat, f: nat)
    requires Inv(s) && Enabled(s, Remove(x)) && f in s.files && f in s.disk && s.disk[f].length <= 0x7fff_ffff
    requires Keeps(s, f, Owned(s.disk, f))
    ensures Keeps(Step(s, Remove(x)), f, Owned(s.disk, f))
  {
    hide Inv, FindAddr, Owned;
  }

  // ---- Creation ----

  // A creation makes a file exactly when nothing that can fail does and the free map has room for the inode and
  // then for the data.
  predicate HasRoom(bits: seq<bool>, length: nat)
    requires length <= 0x7fff_ffff
  {
    var at := Scan(bits, 1, 0);
    at.Some? && exists j :: 0 <= j <= |bits| && Clear(Mark(bits, at.value, 1, true), j, Sectors32(length))
  }

  lemma CreatesIff(s: State, length: nat, o: Outcome)
    requires Inv(s) && length <= 0x7fff_ffff
    ensures CreateStep(s, length, o).files != s.files
       <==> o == Outcome(true, true, true, true, true) && HasRoom(s.bits, length)
  {
    hide Openness, Blocks, Mark, Clear, Sectors32, DataSectors;
    if o.dir && o.wroteInode {
      var (inode, bits) := Allocate(s.bits, 1, true);
      if inode.Some? {
        NotAFile(s, inode.value);
        RoomIff(bits, Sectors32(length));
      }
    }
  }

  lemma RoomIff(bits: seq<bool>, n: nat)
    ensures Allocate(bits, n, true).0.Some? <==> exists j :: 0 <= j <= |bits| && Clear(bits, j, n)
  {
    hide Scan, Mark;
    if Allocate(bits, n, true).0.Some? {
      var j := Allocate(bits, n, true).0.value;
      assert Clear(bits, j, n);
    }
  }
}
