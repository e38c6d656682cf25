// The free map and the list of open inodes as the kernel updates them in place.
module SectorsMachine {
  import opened Common
  import opened Inode
  import opened Sectors

  class FileSystem {
    var bits: seq<bool>              // free_map
    var disk: map<nat, Data>
    var open: seq<Mem>               // open_inodes
    ghost var files: set<nat>
    ghost var lost: set<nat>

    ghost function Abs(): State
      reads this
    {
      State(bits, disk, open, files, lost)
    }

    ghost predicate Valid()
      reads this
    {
      Inv(Abs())
    }

    // free_map_init() and do_format(): a formatted device with nothing open.
    constructor (sectors: nat, fsMap: nat, root: nat)
      requires Formattable(sectors, fsMap, root)
      ensures Valid() && Abs() == Init(sectors, fsMap, root)
    {
      hide Inv;
      InitInv(sectors, fsMap, root);
      var s := Init(sectors, fsMap, root);
      bits, disk, open, files, lost := s.bits, s.disk, s.open, s.files, s.lost;
    }

    // bitmap_scan(): the first run of n clear bits.
    method ScanMap(n: nat) returns (at: Option<nat>)
      ensures at == Scan(bits, n, 0)
    {
      if n <= |bits| {
        var i: nat := 0;
        while i <= |bits| - n
          invariant i <= |bits| - n + 1
          invariant Scan(bits, n, 0) == Scan(bits, n, i)
        {
          if Clear(bits, i, n) {
            return Some(i);
          }
          i := i + 1;
        }
      }
      return None;
    }

    // free_map_allocate()
    method AllocateSectors(n: nat, wrote: bool) returns (at: Option<nat>)
      modifies `bits
      ensures (at, bits) == Allocate(old(bits), n, wrote)
    {
      hide Scan, Mark;
      at := ScanMap(n);
      if at.Some? {
        bits := Mark(bits, at.value, n, true);
        if !wrote {
          bits := Mark(bits, at.value, n, false);
          at := None;
        }
      }
    }

    // free_map_release()
    method ReleaseSectors(i: nat, n: nat)
      requires i + n <= |bits| && forall k | i <= k < i + n :: bits[k]
      modifies `bits
      ensures bits == Mark(old(bits), i, n, false)
    {
      bits := Mark(bits, i, n, false);
    }

    // filesys_create(), with inode_create() in its middle.
    method Create(length: nat, o: Outcome) returns (success: bool)
      requires Valid() && Enabled(Abs(), Action.Create(length, o))
      modifies this
      ensures Valid() && Abs() == Step(old(Abs()), Action.Create(length, o))
      ensures success ==> exists f :: f !in old(files) && files == old(files) + {f} && f in disk && disk[f].length == length
      ensures !success ==> files == old(files)
      ensures !success && lost == old(lost) ==> bits == old(bits)
    {
      hide Blocks, Openness, Scan, Mark, Sectors32, DataSectors, Allocate;
      ghost var s := Abs();
      StepInv(s, Action.Create(length, o));
      CreateFacts(s, length, o);
      if !o.dir {
        return false;
      }
      var inode := AllocateSectors(1, o.wroteInode);
      if inode.None? {
        return false;
      }
      var sector := inode.value;
      NotAFile(s, sector);
      var n := Sectors32(length);
      var start: Option<nat> := None;
      if o.memory {
        start := AllocateSectors(n, o.wroteData);
      }
      if start.Some? {
        disk := disk[sector := Data(start.value, length)];
        if o.added {
          files := files + {sector};
          return true;
        }
        lost := lost + DataSectors(Data(start.value, length));
      }
      bits := Mark(bits, sector, 1, false);
      return false;
    }

    // inode_open(); `addr` is what malloc() would answer.
    method OpenInode(sector: nat, addr: nat) returns (r: nat)
      requires Valid() && Enabled(Abs(), Action.Open(sector, addr))
      modifies `open
      ensures Valid() && Abs() == Step(old(Abs()), Action.Open(sector, addr))
      ensures r != 0 ==> exists i :: 0 <= i < |open| && open[i].addr == r && open[i].sector == sector
      ensures (exists i :: 0 <= i < |old(open)| && old(open)[i].addr == r) || r == addr
    {
      hide Blocks, Openness, Inv;
      StepInv(Abs(), Action.Open(sector, addr));
      NamedAt(Abs(), sector);
      var e: nat := 0;
      while e < |open|
        invariant e <= |open| && open == old(open)
        invariant FindSector(open, sector, 0) == FindSector(open, sector, e)
      {
        if open[e].sector == sector {
          MemAt(Abs(), e);
          r := open[e].addr;
          open := open[e := open[e].(openCnt := open[e].openCnt + 1)];
          assert open[e].addr == r;
          return;
        }
        e := e + 1;
      }
      if addr == 0 {
        return 0;
      }
      open := [Mem(addr, sector, 1, false, disk[sector])] + open;
      assert open[0].addr == addr;
      return addr;
    }

    // inode_reopen()
    method ReopenInode(addr: nat) returns (r: nat)
      requires Valid() && Enabled(Abs(), Action.Reopen(addr))
      modifies `open
      ensures Valid() && Abs() == Step(old(Abs()), Action.Reopen(addr)) && r == addr
    {
      hide Blocks, Openness, Inv;
      StepInv(Abs(), Action.Reopen(addr));
      if addr != 0 {
        var i := FindAddr(open, addr, 0);
        MemAt(Abs(), i);
        open := open[i := open[i].(openCnt := open[i].openCnt + 1)];
      }
      return addr;
    }

    // inode_remove()
    method RemoveInode(addr: nat)
      requires Valid() && Enabled(Abs(), Action.Remove(addr))
      modifies `open
      ensures Valid() && Abs() == Step(old(Abs()), Action.Remove(addr))
    {
      hide Inv;
      StepInv(Abs(), Action.Remove(addr));
      var i := FindAddr(open, addr, 0);
      open := open[i := open[i].(removed := true)];
    }

    // inode_close(): the assertions of free_map_release() hold when it is called.
    method CloseInode(addr: nat)
      requires Valid() && Enabled(Abs(), Action.Close(addr))
      modifies this
      ensures Valid() && Abs() == Step(old(Abs()), Action.Close(addr))
    {
      hide Inv, Blocks, Openness, Sectors32;
      ghost var s := Abs();
      StepInv(s, Action.Close(addr));
      if addr == 0 {
        return;
      }
      var i := FindAddr(open, addr, 0);
      MemAt(s, i);
      var m := open[i];
      if m.openCnt - 1 == 0 {
        open := open[..i] + open[i + 1..];
        if m.removed {
          NotOwnData(s, i);
          ReleaseSectors(m.sector, 1);
          ReleaseSectors(m.data.start, Sectors32(m.data.length));
          files := files - {m.sector};
        }
      } else {
        open := open[i := m.(openCnt := m.openCnt - 1)];
      }
    }
  }

  lemma NotOwnData(s: State, i: nat)
    requires Inv(s) && i < |s.open|
    ensures (MemAt(s, i);
             var m := s.open[i];
             && !(m.data.start <= m.sector < m.data.start + Sectors32(m.data.length))
             && s.bits[m.sector]
             && forall k: nat | m.data.start <= k < m.data.start + Sectors32(m.data.length) :: s.bits[k])
  {
    hide Sectors32, Openness;
    MemAt(s, i);
    var m := s.open[i];
    assert SetAndKept(s.bits, s.lost, Owned(s.disk, m.sector));
    assert m.sector in Owned(s.disk, m.sector);
    forall k: nat | m.data.start <= k < m.data.start + Sectors32(m.data.length) ensures s.bits[k] {
      assert k in Owned(s.disk, m.sector);
    }
  }

  // The answer of filesys_create() and what it leaves behind when it fails.
  lemma CreateFacts(s: State, length: nat, o: Outcome)
    requires Inv(s) && length <= 0x7fff_ffff
    ensures var r := CreateStep(s, length, o);
            && (r.files == s.files || exists f :: f !in s.files && r.files == s.files + {f} && f in r.disk && r.disk[f].length == length)
            && (r.files == s.files && r.lost == s.lost ==> r.bits == s.bits)
  {
    hide Openness, Sectors32, DataSectors, Mark, Clear, Allocate, Scan, Blocks, Changed, Unused;
    var r := CreateStep(s, length, o);
    if o.dir {
      var (inode, bits) := Allocate(s.bits, 1, o.wroteInode);
      if inode.Some? {
        var f := inode.value;
        Undone(s.bits, f);
        if o.memory {
          var n := Sectors32(length);
          var (start, more) := Allocate(bits, n, o.wroteData);
          if start.Some? {
            var data := Data(start.value, length);
            Allocated(s.bits, n, length, f, start.value);
            FileAdded(s.bits, more, s.disk, s.files, s.lost, f, data);
            if o.added {
              assert f !in s.files && r.files == s.files + {f} && r.disk[f].length == length;
            } else {
              NewLosses(s, length, f, start.value);
              if length == 0 {
                EmptyFile(length);
                NothingMarked(s.bits, f, start.value);
              }
            }
          }
        }
      }
    }
  }

  lemma NothingMarked(bits: seq<bool>, f: nat, start: nat)
    requires Clear(bits, f, 1) && start <= |bits|
    ensures Mark(Mark(Mark(bits, f, 1, true), start, 0, true), f, 1, false) == bits
  {}
}
