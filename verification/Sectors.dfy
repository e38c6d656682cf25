// Who owns which sector: the free map (proj-pregame/src/filesys/free-map.c), the open inodes
// (proj-pregame/src/filesys/inode.c) and filesys_create() (proj-pregame/src/filesys/filesys.c).
module Sectors {
  import opened Common
  import opened Inode

  // bytes_to_sectors() with the 32-bit signed sum and the conversion to size_t written out.
  function Sectors32(length: nat): (n: nat)
    requires length <= 0x7fff_ffff
    ensures SectorsFor(length) <= n
  {
    if length + 511 <= 0x7fff_ffff then (length + 511) / 512
    else 0x1_0000_0000 - (0x1_0000_0000 - length - 511) / 512
  }

  // The fewest sectors that hold the bytes, unless the sum wraps around; then 2^32 less the quotient of its
  // magnitude: at least 2^32 - 2^22.
  lemma SectorCount(length: nat)
    requires length <= 0x7fff_ffff
    ensures var n := Sectors32(length);
            if length + 511 <= 0x7fff_ffff then 512 * (n - 1) < length <= 512 * n
            else var q := 0x1_0000_0000 - n;
                 512 * q <= 0x1_0000_0000 - (length + 511) < 512 * (q + 1) && n >= 0x1_0000_0000 - 0x40_0000
  {}

  // An in-memory inode, at an address that malloc() gave.
  datatype Mem = Mem(addr: nat, sector: nat, openCnt: nat, removed: bool, data: Data)

  // `disk` holds the inodes that have been written to their sectors.  History: `files` are the sectors of
  // the inodes that exist, and `lost` the sectors in use that belong to no inode.
  datatype State = State(bits: seq<bool>, disk: map<nat, Data>, open: seq<Mem>,
                         files: set<nat>, lost: set<nat>)

  // ---- The bitmap ----

  predicate Clear(bits: seq<bool>, i: nat, n: nat) {
    i + n <= |bits| && forall k | i <= k < i + n :: !bits[k]
  }

  // bitmap_scan(): the first place from i on with n clear bits.
  function Scan(bits: seq<bool>, n: nat, i: nat): (r: Option<nat>)
    ensures r.Some? ==> Clear(bits, r.value, n) && i <= r.value
    ensures forall j | i <= j < (if r.Some? then r.value else |bits| + 1) :: !Clear(bits, j, n)
    decreases |bits| + 1 - i
  {
    if i + n > |bits| then None else if Clear(bits, i, n) then Some(i) else Scan(bits, n, i + 1)
  }

  // bitmap_set_multiple()
  function Mark(bits: seq<bool>, i: nat, n: nat, v: bool): (r: seq<bool>)
    requires i + n <= |bits|
    ensures |r| == |bits| && forall k | 0 <= k < |bits| :: r[k] == if i <= k < i + n then v else bits[k]
  {
    seq(|bits|, k requires 0 <= k < |bits| => if i <= k < i + n then v else bits[k])
  }

  // free_map_allocate(); `wrote` says whether the changed map reaches its file.
  function Allocate(bits: seq<bool>, n: nat, wrote: bool): (r: (Option<nat>, seq<bool>))
    ensures r.0.None? ==> r.1 == bits
    ensures r.0.Some? ==> wrote && Clear(bits, r.0.value, n) && r.1 == Mark(bits, r.0.value, n, true)
    ensures r.0.None? <==> !wrote || forall j: nat :: !Clear(bits, j, n)
  {
    var at := Scan(bits, n, 0);
    if at.None? then
      assert forall j: nat | j > |bits| :: !Clear(bits, j, n);
      (None, bits)
    else if wrote then (at, Mark(bits, at.value, n, true))
    else
      assert Mark(Mark(bits, at.value, n, true), at.value, n, false) == bits;
      (None, Mark(Mark(bits, at.value, n, true), at.value, n, false))
  }

  // ---- Ownership ----

  function Range(i: nat, n: nat): (r: set<nat>)
    ensures forall k :: k in r <==> i <= k < i + n
  {
    if n == 0 then {} else Range(i, n - 1) + {i + n - 1}
  }

  function DataSectors(data: Data): set<nat>
    requires data.length <= 0x7fff_ffff
  {
    Range(data.start, Sectors32(data.length))
  }

  // The sectors of the inode at sector f.
  function Owned(disk: map<nat, Data>, f: nat): set<nat>
    requires f in disk && disk[f].length <= 0x7fff_ffff
  {
    {f} + DataSectors(disk[f])
  }

  ghost predicate Named(disk: map<nat, Data>, files: set<nat>) {
    forall f | f in files :: f in disk && disk[f].length <= 0x7fff_ffff && f !in DataSectors(disk[f])
  }

  // No sector belongs to two inodes.
  ghost predicate Separate(disk: map<nat, Data>, files: set<nat>)
    requires Named(disk, files)
  {
    forall f, g | f in files && g in files && f != g :: Owned(disk, f) !! Owned(disk, g)
  }

  // A bit is set exactly for the sectors that an inode owns and those that are lost, and no sector is both.
  ghost predicate Marked(bits: seq<bool>, disk: map<nat, Data>, files: set<nat>, lost: set<nat>)
    requires Named(disk, files)
  {
    && (forall f | f in files ::
          disk[f].start + Sectors32(disk[f].length) <= |bits| && SetAndKept(bits, lost, Owned(disk, f)))
    && (forall k | k in lost :: k < |bits| && bits[k])
    && (forall k: nat | k < |bits| && bits[k] :: k in lost || OwnedByOne(disk, files, k))
  }

  ghost predicate SetAndKept(bits: seq<bool>, lost: set<nat>, owned: set<nat>) {
    forall k | k in owned :: k < |bits| && bits[k] && k !in lost
  }

  ghost predicate OwnedByOne(disk: map<nat, Data>, files: set<nat>, k: nat)
    requires Named(disk, files)
  {
    exists f :: f in files && k in Owned(disk, f)
  }

  ghost predicate Blocks(bits: seq<bool>, disk: map<nat, Data>, files: set<nat>, lost: set<nat>) {
    Named(disk, files) && Separate(disk, files) && Marked(bits, disk, files, lost)
  }

  // The in-memory inode is that of an existing inode, and somebody refers to it.
  ghost predicate MemOk(disk: map<nat, Data>, files: set<nat>, m: Mem) {
    && m.addr > 0 && m.sector in files && m.sector in disk && m.data == disk[m.sector]
    && m.openCnt > 0
    && (m.removed ==> m.sector >= 2)
  }

  // One in-memory inode per sector.
  ghost predicate OneEach(open: seq<Mem>) {
    forall i, j | 0 <= i < j < |open| :: open[i].sector != open[j].sector && open[i].addr != open[j].addr
  }

  ghost predicate Openness(disk: map<nat, Data>, open: seq<Mem>, files: set<nat>) {
    && (forall i | 0 <= i < |open| :: MemOk(disk, files, open[i]))
    && OneEach(open)
  }

  ghost predicate Inv(s: State) {
    && Blocks(s.bits, s.disk, s.files, s.lost)
    && Openness(s.disk, s.open, s.files)
    && 0 in s.files && 1 in s.files        // the free map's own file and the root directory
  }

  // ---- Operations ----

  // Whether the steps of filesys_create() that can fail do: opening the directory, the two writes of the
  // free map, memory for the on-disk inode, and adding the name.
  datatype Outcome = Outcome(dir: bool, wroteInode: bool, memory: bool, wroteData: bool, added: bool)

  datatype Action =
    | Create(length: nat, o: Outcome)
    | Open(sector: nat, addr: nat)      // addr: what malloc() would answer, 0 if nothing
    | Reopen(addr: nat)
    | Remove(addr: nat)
    | Close(addr: nat)

  predicate IsOpen(open: seq<Mem>, addr: nat) {
    exists i :: 0 <= i < |open| && open[i].addr == addr
  }

  ghost predicate Enabled(s: State, a: Action) {
    match a
    case Create(length, _) => length <= 0x7fff_ffff
    case Open(sector, addr) => sector in s.files && !IsOpen(s.open, addr)
    case Reopen(addr) => addr == 0 || IsOpen(s.open, addr)
    case Remove(addr) => IsOpen(s.open, addr) && s.open[FindAddr(s.open, addr, 0)].sector >= 2
    case Close(addr) => addr == 0 || IsOpen(s.open, addr)
  }

  // filesys_create() with inode_create() inside it.
  function CreateStep(s: State, length: nat, o: Outcome): State
    requires length <= 0x7fff_ffff
  {
    if !o.dir then s
    else
      var (inode, bits) := Allocate(s.bits, 1, o.wroteInode);
      if inode.None? then s.(bits := bits)
      else
        var sector := inode.value;
        var (start, more) := if o.memory then Allocate(bits, Sectors32(length), o.wroteData) else (None, bits);
        if start.None? then s.(bits := Mark(more, sector, 1, false))
        else
          var data := Data(start.value, length);
          var t := s.(bits := more, disk := s.disk[sector := data]);
          if o.added then t.(files := t.files + {sector})
          else t.(bits := Mark(more, sector, 1, false), lost := t.lost + DataSectors(data))
  }

  // The place of the in-memory inode of a sector, or the length of the list.
  function FindSector(open: seq<Mem>, sector: nat, i: nat): (r: nat)
    requires i <= |open|
    ensures i <= r <= |open| && (r < |open| ==> open[r].sector == sector)
    ensures forall k | i <= k < r :: open[k].sector != sector
    decreases |open| - i
  {
    if i == |open| || open[i].sector == sector then i else FindSector(open, sector, i + 1)
  }

  function FindAddr(open: seq<Mem>, addr: nat, i: nat): (r: nat)
    requires i <= |open|
    ensures i <= r <= |open| && (r < |open| ==> open[r].addr == addr)
    ensures forall k | i <= k < r :: open[k].addr != addr
    decreases |open| - i
  {
    if i == |open| || open[i].addr == addr then i else FindAddr(open, addr, i + 1)
  }

  function ReopenAt(s: State, i: nat): State
    requires i < |s.open|
  {
    var m := s.open[i];
    s.(open := s.open[i := m.(openCnt := m.openCnt + 1)])
  }

  function CloseAt(s: State, i: nat): State
    requires i < |s.open| && s.open[i].openCnt > 0
    requires s.open[i].data.length <= 0x7fff_ffff && s.open[i].sector < |s.bits|
    requires s.open[i].data.start + Sectors32(s.open[i].data.length) <= |s.bits|
  {
    var m := s.open[i];
    if m.openCnt > 1 then
      s.(open := s.open[i := m.(openCnt := m.openCnt - 1)])
    else
      var t := s.(open := s.open[..i] + s.open[i + 1..]);
      if !m.removed then t
      else t.(bits := Mark(Mark(s.bits, m.sector, 1, false), m.data.start, Sectors32(m.data.length), false),
              files := s.files - {m.sector})
  }

  ghost function Step(s: State, a: Action): State
    requires Inv(s) && Enabled(s, a)
  {
    hide Inv, Owned, Range, Sectors32;
    match a
    case Create(length, o) => CreateStep(s, length, o)
    case Open(sector, addr) =>
      var i := FindSector(s.open, sector, 0);
      if i < |s.open| then ReopenAt(s, i)
      else if addr == 0 then s
      else (NamedAt(s, sector);
            s.(open := [Mem(addr, sector, 1, false, s.disk[sector])] + s.open))
    case Reopen(addr) =>
      if addr == 0 then s else ReopenAt(s, FindAddr(s.open, addr, 0))
    case Remove(addr) =>
      var i := FindAddr(s.open, addr, 0);
      s.(open := s.open[i := s.open[i].(removed := true)])
    case Close(addr) =>
      if addr == 0 then s else (var i := FindAddr(s.open, addr, 0); MemAt(s, i); CloseAt(s, i))
  }

  // What is known of an open inode: its counts, and that its sectors are marked, as free_map_release() asserts.
  lemma MemAt(s: State, i: nat)
    requires Inv(s) && i < |s.open|
    ensures var m := s.open[i];
            && MemOk(s.disk, s.files, m) && m.data.length <= 0x7fff_ffff
            && m.sector < |s.bits| && m.data.start + Sectors32(m.data.length) <= |s.bits|
            && (forall k: nat | k in Owned(s.disk, m.sector) :: k < |s.bits| && s.bits[k])
  {
    hide Sectors32, DataSectors, Separate;
    var m := s.open[i];
    assert MemOk(s.disk, s.files, m);
    assert m.sector in Owned(s.disk, m.sector);
  }

  lemma NamedAt(s: State, f: nat)
    requires Inv(s) && f in s.files
    ensures f in s.disk
  {}

  // ---- Every step keeps the invariant ----

  // `to` is `from` with the bits of `changed` set to v.
  ghost predicate Changed(from: seq<bool>, to: seq<bool>, changed: set<nat>, v: bool) {
    && |from| == |to| && (forall k | k in changed :: k < |from|)
    && forall k: nat | k < |from| :: to[k] == if k in changed then v else from[k]
  }

  // Sectors that are clear belong to nobody.
  ghost predicate Unused(bits: seq<bool>, sectors: set<nat>) {
    forall k | k in sectors :: k < |bits| && !bits[k]
  }

  lemma FileAdded(bits: seq<bool>, to: seq<bool>, disk: map<nat, Data>, files: set<nat>, lost: set<nat>, f: nat, data: Data)
    requires Blocks(bits, disk, files, lost) && data.length <= 0x7fff_ffff
    requires data.start + Sectors32(data.length) <= |bits| && f !in DataSectors(data)
    requires Unused(bits, {f} + DataSectors(data)) && Changed(bits, to, {f} + DataSectors(data), true)
    ensures Blocks(to, disk[f := data], files + {f}, lost) && f !in files
  {
    hide Owned, Marked, Unused, Changed, Sectors32, DataSectors, SetAndKept;
    var d := disk[f := data];
    FileAddedNamed(bits, disk, files, lost, f, data);
    forall g | g in files ensures Owned(d, g) !! Owned(d, f) {
      UsedApart(bits, disk, files, lost, g, Owned(d, f));
    }
    FileAddedMarked(bits, to, disk, files, lost, f, d);
  }

  lemma UsedApart(bits: seq<bool>, disk: map<nat, Data>, files: set<nat>, lost: set<nat>, g: nat, others: set<nat>)
    requires Blocks(bits, disk, files, lost) && g in files && Unused(bits, others)
    ensures Owned(disk, g) !! others
  {
    hide Owned, Sectors32;
    assert SetAndKept(bits, lost, Owned(disk, g));
  }

  lemma FileAddedNamed(bits: seq<bool>, disk: map<nat, Data>, files: set<nat>, lost: set<nat>, f: nat, data: Data)
    requires Blocks(bits, disk, files, lost) && data.length <= 0x7fff_ffff && f !in DataSectors(data)
    requires Unused(bits, {f} + DataSectors(data))
    ensures var d := disk[f := data];
            && f !in files && Named(d, files + {f}) && Owned(d, f) == {f} + DataSectors(data)
            && (forall g | g in files :: d[g] == disk[g] && Owned(d, g) == Owned(disk, g))
  {
    hide Sectors32, DataSectors, Separate;
    if f in files {
      UsedApart(bits, disk, files, lost, f, {f});
      assert false;
    }
  }

  lemma FileAddedMarked(bits: seq<bool>, to: seq<bool>, disk: map<nat, Data>, files: set<nat>, lost: set<nat>, f: nat, d: map<nat, Data>)
    requires Blocks(bits, disk, files, lost) && Named(d, files + {f})
    requires forall g | g in files :: d[g] == disk[g] && Owned(d, g) == Owned(disk, g)
    requires d[f].start + Sectors32(d[f].length) <= |bits|
    requires Unused(bits, Owned(d, f)) && Changed(bits, to, Owned(d, f), true)
    ensures Marked(to, d, files + {f}, lost)
  {
    hide Sectors32, Owned, Separate;
    var l := files + {f};
    forall k: nat | k < |to| && to[k] ensures k in lost || OwnedByOne(d, l, k) {
      if k !in Owned(d, f) && k !in lost {
        var g :| g in files && k in Owned(disk, g);
        assert g in l && k in Owned(d, g);
      }
    }
    forall g | g in files ensures SetAndKept(to, lost, Owned(d, g)) {
      assert SetAndKept(bits, lost, Owned(disk, g));
    }
  }

  lemma SectorsLost(bits: seq<bool>, to: seq<bool>, disk: map<nat, Data>, files: set<nat>, lost: set<nat>, more: set<nat>)
    requires Blocks(bits, disk, files, lost) && Unused(bits, more) && Changed(bits, to, more, true)
    ensures Blocks(to, disk, files, lost + more)
  {
    hide Sectors32, DataSectors, Owned, Separate;
    assert forall k: nat | k < |to| && to[k] && k !in lost + more :: bits[k] && OwnedByOne(disk, files, k);
  }

  lemma FileDropped(bits: seq<bool>, to: seq<bool>, disk: map<nat, Data>, files: set<nat>, lost: set<nat>, f: nat)
    requires Blocks(bits, disk, files, lost) && f in files && Changed(bits, to, Owned(disk, f), false)
    ensures Blocks(to, disk, files - {f}, lost)
  {
    hide Sectors32, DataSectors, Owned;
    var l := files - {f};
    assert Named(disk, l) && Separate(disk, l);
    assert forall g | g in l :: Owned(disk, g) !! Owned(disk, f);
    forall k: nat | k < |to| && to[k] ensures k in lost || OwnedByOne(disk, l, k) {
      if k !in lost {
        var g :| g in files && k in Owned(disk, g);
        assert g in l;
      }
    }
  }

  // A stale on-disk inode at a sector that is no file's changes nothing.
  lemma StaleWrite(bits: seq<bool>, disk: map<nat, Data>, files: set<nat>, lost: set<nat>, f: nat, data: Data)
    requires Blocks(bits, disk, files, lost) && f !in files
    ensures Blocks(bits, disk[f := data], files, lost)
  {
    hide Sectors32, DataSectors, SetAndKept;
    var d := disk[f := data];
    assert Named(d, files);
    assert forall g | g in files :: Owned(d, g) == Owned(disk, g);
    hide Owned;
    forall k | OwnedByOne(disk, files, k) ensures OwnedByOne(d, files, k) {
      var g :| g in files && k in Owned(disk, g);
      assert k in Owned(d, g);
    }
  }

  // The inodes that existed before are open as before.
  lemma OpennessFrame(s: State, disk: map<nat, Data>, files: set<nat>)
    requires Openness(s.disk, s.open, s.files)
    requires forall f | f in s.files :: f in files && (f in s.disk ==> f in disk && disk[f] == s.disk[f])
    ensures Openness(disk, s.open, files)
  {
    forall i | 0 <= i < |s.open| ensures MemOk(disk, files, s.open[i]) {
      assert MemOk(s.disk, s.files, s.open[i]);
    }
  }

  // The two allocations of a successful inode_create(), taken together.
  lemma Allocated(bits: seq<bool>, n: nat, length: nat, f: nat, start: nat)
    requires length <= 0x7fff_ffff && n == Sectors32(length)
    requires Clear(bits, f, 1) && Clear(Mark(bits, f, 1, true), start, n)
    ensures var to := Mark(Mark(bits, f, 1, true), start, n, true);
            var data := Data(start, length);
            && start + n <= |bits| && f !in DataSectors(data)
            && Unused(bits, {f} + DataSectors(data)) && Changed(bits, to, {f} + DataSectors(data), true)
            && Unused(bits, DataSectors(data)) && Changed(bits, Mark(to, f, 1, false), DataSectors(data), true)
  {
    hide Sectors32;
    var one := Mark(bits, f, 1, true);
    assert one[f];
    assert forall k: nat | k in Range(start, n) :: start <= k < start + n;
  }

  lemma CreateKeeps(s: State, length: nat, o: Outcome)
    requires Inv(s) && length <= 0x7fff_ffff
    ensures Inv(CreateStep(s, length, o))
  {
    hide Sectors32, DataSectors, Owned, Blocks, Openness, Mark, Clear, Scan, Changed, Unused, Allocate;
    var r := CreateStep(s, length, o);
    if o.dir {
      var (inode, bits) := Allocate(s.bits, 1, o.wroteInode);
      if inode.Some? {
        var f := inode.value;
        Undone(s.bits, f);
        if o.memory {
          var n := Sectors32(length);
          var (start, more) := Allocate(bits, n, o.wroteData);
          if start.Some? {
            var data := Data(start.value, length);
            Allocated(s.bits, n, length, f, start.value);
            FileAdded(s.bits, more, s.disk, s.files, s.lost, f, data);
            if o.added {
              OpennessFrame(s, r.disk, r.files);
            } else {
              SectorsLost(s.bits, r.bits, s.disk, s.files, s.lost, DataSectors(data));
              StaleWrite(r.bits, s.disk, s.files, r.lost, f, data);
              OpennessFrame(s, r.disk, r.files);
            }
          }
        }
      }
    }
  }

  lemma Undone(bits: seq<bool>, f: nat)
    requires Clear(bits, f, 1)
    ensures Mark(Mark(bits, f, 1, true), f, 1, false) == bits
  {}

  // Replacing one in-memory inode by itself with other counts or marked removed.
  lemma OneChanged(s: State, i: nat, m: Mem)
    requires Inv(s) && i < |s.open| && m.addr == s.open[i].addr && m.sector == s.open[i].sector
    requires m.data == s.open[i].data && m.openCnt > 0 && (m.removed ==> m.sector >= 2)
    ensures Openness(s.disk, s.open[i := m], s.files)
  {
    hide Blocks;
    var open := s.open[i := m];
    forall k | 0 <= k < |open| ensures MemOk(s.disk, s.files, open[k]) {
      assert MemOk(s.disk, s.files, s.open[k]);
    }
  }

  lemma OneEachDropped(open: seq<Mem>, i: nat)
    requires OneEach(open) && i < |open|
    ensures OneEach(open[..i] + open[i + 1..])
  {
    var r := open[..i] + open[i + 1..];
    forall j, k | 0 <= j < k < |r| ensures r[j].sector != r[k].sector && r[j].addr != r[k].addr {
      var a, b := if j < i then j else j + 1, if k < i then k else k + 1;
      assert r[j] == open[a] && r[k] == open[b];
    }
  }

  lemma OneClosed(s: State, i: nat)
    requires Inv(s) && i < |s.open|
    ensures Openness(s.disk, s.open[..i] + s.open[i + 1..], s.files - {s.open[i].sector})
    ensures Openness(s.disk, s.open[..i] + s.open[i + 1..], s.files)
  {
    hide Blocks, IsOpen;
    var open := s.open[..i] + s.open[i + 1..];
    forall k | 0 <= k < |open|
      ensures MemOk(s.disk, s.files, open[k]) && MemOk(s.disk, s.files - {s.open[i].sector}, open[k])
    {
      var j := if k < i then k else k + 1;
      assert open[k] == s.open[j] && MemOk(s.disk, s.files, s.open[j]);
      assert s.open[j].sector != s.open[i].sector && s.open[j].addr != s.open[i].addr;
    }
    hide OneEach, MemOk;
    OneEachDropped(s.open, i);
  }

  lemma OneOpened(s: State, sector: nat, addr: nat)
    requires Inv(s) && sector in s.files && sector in s.disk && addr > 0 && !IsOpen(s.open, addr)
    requires forall k | 0 <= k < |s.open| :: s.open[k].sector != sector
    ensures Openness(s.disk, [Mem(addr, sector, 1, false, s.disk[sector])] + s.open, s.files)
  {
    hide Blocks;
    var open := [Mem(addr, sector, 1, false, s.disk[sector])] + s.open;
    forall k | 0 <= k < |open| ensures MemOk(s.disk, s.files, open[k]) {
      assert k > 0 ==> MemOk(s.disk, s.files, s.open[k - 1]);
    }
  }

  lemma CloseKeeps(s: State, i: nat)
    requires Inv(s) && i < |s.open|
    ensures (MemAt(s, i); Inv(CloseAt(s, i)))
  {
    hide Blocks, Openness, Sectors32, Owned, Mark;
    MemAt(s, i);
    var m, r := s.open[i], CloseAt(s, i);
    if m.openCnt > 1 {
      OneChanged(s, i, m.(openCnt := m.openCnt - 1));
    } else {
      OneClosed(s, i);
      if m.removed {
        ClearedBits(s.bits, s.disk, m.sector);
        FileDropped(s.bits, r.bits, s.disk, s.files, s.lost, m.sector);
      }
    }
  }

  // The two calls of free_map_release() clear exactly the sectors of the inode.
  lemma ClearedBits(bits: seq<bool>, disk: map<nat, Data>, f: nat)
    requires f in disk && disk[f].length <= 0x7fff_ffff && f < |bits|
    requires disk[f].start + Sectors32(disk[f].length) <= |bits|
    ensures Changed(bits, Mark(Mark(bits, f, 1, false), disk[f].start, Sectors32(disk[f].length), false), Owned(disk, f), false)
  {
    hide Sectors32;
  }

  lemma StepInv(s: State, a: Action)
    requires Inv(s) && Enabled(s, a)
    ensures Inv(Step(s, a))
  {
    hide Blocks, Openness, CreateStep, CloseAt, MemOk;
    match a
    case Create(length, o) => CreateKeeps(s, length, o);
    case Open(sector, addr) =>
      var i := FindSector(s.open, sector, 0);
      if i < |s.open| {
        ReopenKeeps(s, i);
      } else if addr != 0 {
        NamedAt(s, sector);
        OneOpened(s, sector, addr);
      }
    case Reopen(addr) =>
      if addr != 0 { ReopenKeeps(s, FindAddr(s.open, addr, 0)); }
    case Remove(addr) =>
      var i := FindAddr(s.open, addr, 0);
      RemoveKeeps(s, i);
    case Close(addr) =>
      if addr != 0 { CloseKeeps(s, FindAddr(s.open, addr, 0)); }
  }

  lemma ReopenKeeps(s: State, i: nat)
    requires Inv(s) && i < |s.open|
    ensures (MemAt(s, i); Inv(ReopenAt(s, i)))
  {
    hide Blocks, Openness;
    MemAt(s, i);
    var m := s.open[i];
    OneChanged(s, i, m.(openCnt := m.openCnt + 1));
  }

  lemma RemoveKeeps(s: State, i: nat)
    requires Inv(s) && i < |s.open| && s.open[i].sector >= 2
    ensures Inv(s.(open := s.open[i := s.open[i].(removed := true)]))
  {
    hide Blocks, Openness;
    MemAt(s, i);
    var m := s.open[i];
    OneChanged(s, i, m.(removed := true));
  }

  // ---- Runs ----

  ghost predicate AllEnabled(s: State, run: seq<Action>)
    requires Inv(s)
    decreases |run|
  {
    run != [] ==> Enabled(s, run[0]) && (StepInv(s, run[0]); AllEnabled(Step(s, run[0]), run[1..]))
  }

  ghost function After(s: State, run: seq<Action>): (r: State)
    requires Inv(s) && AllEnabled(s, run)
    ensures Inv(r)
    decreases |run|
  {
    if run == [] then s else StepInv(s, run[0]); After(Step(s, run[0]), run[1..])
  }

  // A device of `sectors` sectors can be formatted with a free map and a root directory of these lengths.
  predicate Formattable(sectors: nat, fsMap: nat, root: nat) {
    fsMap <= 0x7fff_ffff && root <= 0x7fff_ffff && 2 + Sectors32(fsMap) + Sectors32(root) <= sectors
  }

  // A formatted device: the inodes of the free map and the root directory, their data behind them, nothing
  // open.
  function Init(sectors: nat, fsMap: nat, root: nat): State
    requires Formattable(sectors, fsMap, root)
  {
    var m := 2 + Sectors32(fsMap);
    State(seq(sectors, k => k < m + Sectors32(root)), map[0 := Data(2, fsMap), 1 := Data(m, root)], [], {0, 1}, {})
  }

  lemma InitInv(sectors: nat, fsMap: nat, root: nat)
    requires Formattable(sectors, fsMap, root)
    ensures Inv(Init(sectors, fsMap, root))
  {
    hide Sectors32, Marked, Owned;
    InitOwned(sectors, fsMap, root);
    InitMarked(sectors, fsMap, root);
  }

  // The formatted device has two inodes, with adjacent data.
  lemma InitOwned(sectors: nat, fsMap: nat, root: nat)
    requires Formattable(sectors, fsMap, root)
    ensures var s := Init(sectors, fsMap, root);
            && Named(s.disk, s.files)
            && Owned(s.disk, 0) == {0} + Range(2, Sectors32(fsMap))
            && Owned(s.disk, 1) == {1} + Range(2 + Sectors32(fsMap), Sectors32(root))
  {
    hide Sectors32, Range;
  }

  lemma InitMarked(sectors: nat, fsMap: nat, root: nat)
    requires Formattable(sectors, fsMap, root)
    ensures var s := Init(sectors, fsMap, root);
            Named(s.disk, s.files) && Marked(s.bits, s.disk, s.files, s.lost)
  {
    hide Sectors32, Owned, DataSectors, Init, Range;
    InitOwned(sectors, fsMap, root);
    InitShape(sectors, fsMap, root);
    var s := Init(sectors, fsMap, root);
    assert SetAndKept(s.bits, s.lost, Owned(s.disk, 0));
    assert SetAndKept(s.bits, s.lost, Owned(s.disk, 1));
    forall k: nat | k < |s.bits| && s.bits[k] ensures OwnedByOne(s.disk, s.files, k) {
      assert k in Owned(s.disk, 0) || k in Owned(s.disk, 1);
    }
  }

  lemma InitShape(sectors: nat, fsMap: nat, root: nat)
    requires Formattable(sectors, fsMap, root)
    ensures var s, m := Init(sectors, fsMap, root), 2 + Sectors32(fsMap);
            && s.files == {0, 1} && s.lost == {} && |s.bits| == sectors
            && s.disk == map[0 := Data(2, fsMap), 1 := Data(m, root)]
            && forall k: nat | k < sectors :: s.bits[k] <==> k < m + Sectors32(root)
  {
    hide Sectors32;
  }

  // From a formatted device on, no sector ever belongs to two inodes, and there is one in-memory inode per
  // sector.
  lemma OwnershipOverRuns(sectors: nat, fsMap: nat, root: nat, run: seq<Action>)
    requires Formattable(sectors, fsMap, root)
    requires (InitInv(sectors, fsMap, root); AllEnabled(Init(sectors, fsMap, root), run))
    ensures (InitInv(sectors, fsMap, root); OneOwner(After(Init(sectors, fsMap, root), run)))
    ensures (InitInv(sectors, fsMap, root); OneMem(After(Init(sectors, fsMap, root), run)))
  {
    hide AllEnabled, After, Step, Enabled, Init;
    InitInv(sectors, fsMap, root);
    StateOwnership(After(Init(sectors, fsMap, root), run));
  }

  ghost predicate OneOwner(s: State) {
    Named(s.disk, s.files)
    && forall f, g | f in s.files && g in s.files && f != g :: Owned(s.disk, f) !! Owned(s.disk, g)
  }

  ghost predicate OneMem(s: State) {
    && (forall i, j | 0 <= i < |s.open| && 0 <= j < |s.open| && s.open[i].sector == s.open[j].sector :: i == j)
    && (forall i | 0 <= i < |s.open| ::
          s.open[i].addr > 0 && s.open[i].openCnt > 0)
  }

  lemma StateOwnership(s: State)
    requires Inv(s)
    ensures OneOwner(s) && OneMem(s)
  {
    hide Owned, Marked;
    forall i | 0 <= i < |s.open|
      ensures s.open[i].addr > 0 && s.open[i].openCnt > 0
    {
      assert MemOk(s.disk, s.files, s.open[i]);
    }
  }

  // The close after which nothing refers to a removed inode.
  ghost predicate LastClose(s: State, a: Action, f: nat) {
    && a.Close? && IsOpen(s.open, a.addr)
    && var m := s.open[FindAddr(s.open, a.addr, 0)];
       m.sector == f && m.removed && m.openCnt == 1
  }

  // An inode's sectors are released, all of them, by the last close of the removed inode and by no other step.
  lemma ReleasedAtLastClose(s: State, a: Action, f: nat, k: nat)
    requires Inv(s) && Enabled(s, a) && f in s.files && f in s.disk && s.disk[f].length <= 0x7fff_ffff
    requires k in Owned(s.disk, f)
    ensures k < |s.bits| == |Step(s, a).bits| && s.bits[k]
    ensures !Step(s, a).bits[k] <==> LastClose(s, a, f)
    ensures f in Step(s, a).files <==> !LastClose(s, a, f)
  {
    hide Openness, Sectors32, Owned, Mark, CreateStep, CloseAt, MemOk;
    assert SetAndKept(s.bits, s.lost, Owned(s.disk, f));
    match a
    case Create(length, o) => CreateReleasesNothing(s, length, o, k);
    case Open(sector, addr) =>
    case Reopen(addr) =>
    case Remove(addr) =>
    case Close(addr) =>
      if addr != 0 {
        CloseReleases(s, FindAddr(s.open, addr, 0), f, k);
      } else {
        NullNotOpen(s);
      }
  }

  lemma NullNotOpen(s: State)
    requires Inv(s)
    ensures !IsOpen(s.open, 0)
  {
    hide Blocks;
    forall i | 0 <= i < |s.open| ensures s.open[i].addr != 0 {
      assert MemOk(s.disk, s.files, s.open[i]);
    }
  }

  lemma CloseReleases(s: State, i: nat, f: nat, k: nat)
    requires Inv(s) && i < |s.open| && f in s.files && f in s.disk && s.disk[f].length <= 0x7fff_ffff
    requires k in Owned(s.disk, f) && k < |s.bits| && s.bits[k]
    ensures (MemAt(s, i);
             var r, m := CloseAt(s, i), s.open[i];
             var last := m.sector == f && m.removed && m.openCnt == 1;
             |r.bits| == |s.bits| && (!r.bits[k] <==> last) && (f in r.files <==> !last))
  {
    hide Openness, Sectors32, Owned, Mark, Marked;
    MemAt(s, i);
    var m := s.open[i];
    if m.openCnt == 1 && m.removed {
      ClearedBits(s.bits, s.disk, m.sector);
      assert m.sector != f ==> Owned(s.disk, m.sector) !! Owned(s.disk, f);
    }
  }

  // Creation clears no bit that was set, and whether it loses sectors is settled by its outcome.
  lemma CreateReleasesNothing(s: State, length: nat, o: Outcome, k: nat)
    requires Inv(s) && length <= 0x7fff_ffff && k < |s.bits| && s.bits[k]
    ensures var r := CreateStep(s, length, o);
            |r.bits| == |s.bits| && r.bits[k] && forall f | f in s.files :: f in r.files
  {
    hide Blocks, Openness, Sectors32, DataSectors, Scan, Allocate;
  }

  // ---- A file's sectors over runs ----

  lemma NotAFile(s: State, f: nat)
    requires Inv(s) && Clear(s.bits, f, 1)
    ensures f !in s.files
  {
    hide Openness, Owned;
    if f in s.files {
      UsedApart(s.bits, s.disk, s.files, s.lost, f, {f});
      OwnsItself(s.disk, f);
    }
  }

  lemma OwnsItself(disk: map<nat, Data>, f: nat)
    requires f in disk && disk[f].length <= 0x7fff_ffff
    ensures f in Owned(disk, f)
  {}

  // No step changes the on-disk inode of a file.
  lemma StepKeepsData(s: State, a: Action, f: nat)
    requires Inv(s) && Enabled(s, a) && f in s.files
    ensures f in s.disk && f in Step(s, a).disk && Step(s, a).disk[f] == s.disk[f]
    ensures s.disk[f].length <= 0x7fff_ffff
  {
    hide Blocks, Openness, MemOk, Allocate, Scan, Mark, Sectors32, DataSectors;
    FileNamed(s, f);
    if a.Create? && a.o.dir {
      var inode := Allocate(s.bits, 1, a.o.wroteInode).0;
      if inode.Some? { NotAFile(s, inode.value); }
    }
  }

  lemma FileNamed(s: State, f: nat)
    requires Inv(s) && f in s.files
    ensures f in s.disk && s.disk[f].length <= 0x7fff_ffff
  {}

  // f is a file with these sectors, and their bits are set.
  ghost predicate Keeps(s: State, f: nat, sectors: set<nat>) {
    && f in s.files && f in s.disk && s.disk[f].length <= 0x7fff_ffff && Owned(s.disk, f) == sectors
    && forall k | k in sectors :: k < |s.bits| && s.bits[k]
  }

  // ... in every state the run passes through.
  ghost predicate KeepsThroughout(s: State, run: seq<Action>, f: nat, sectors: set<nat>)
    requires Inv(s) && AllEnabled(s, run)
    decreases |run|
  {
    Keeps(s, f, sectors)
    && (run != [] ==> (StepInv(s, run[0]); KeepsThroughout(Step(s, run[0]), run[1..], f, sectors)))
  }

  // f is no file, and none of the sectors is in use.
  ghost predicate Released(s: State, f: nat, sectors: set<nat>) {
    f !in s.files && forall k | k in sectors :: k < |s.bits| && !s.bits[k]
  }

  lemma FileKeeps(s: State, f: nat)
    requires Inv(s) && f in s.files
    ensures f in s.disk && s.disk[f].length <= 0x7fff_ffff && Keeps(s, f, Owned(s.disk, f))
  {
    hide Openness, Sectors32;
    assert SetAndKept(s.bits, s.lost, Owned(s.disk, f));
  }

  // One step either leaves the file and all of its sectors, or is its last close and releases them all.
  lemma StepKeepsOrReleases(s: State, a: Action, f: nat, sectors: set<nat>)
    requires Inv(s) && Enabled(s, a) && Keeps(s, f, sectors)
    ensures if LastClose(s, a, f) then Released(Step(s, a), f, sectors) else Keeps(Step(s, a), f, sectors)
  {
    hide Inv, Step, Enabled, LastClose;
    StepKeepsData(s, a, f);
    forall k | k in sectors
      ensures k < |s.bits| == |Step(s, a).bits| && (!Step(s, a).bits[k] <==> LastClose(s, a, f))
      ensures f in Step(s, a).files <==> !LastClose(s, a, f)
    {
      ReleasedAtLastClose(s, a, f, k);
    }
    OwnsItself(s.disk, f);
    assert f in sectors;
    hide Owned, DataSectors;
    SameOwned(s, a, f);
  }

  lemma SameOwned(s: State, a: Action, f: nat)
    requires Inv(s) && Enabled(s, a) && f in s.files
    requires f in s.disk && f in Step(s, a).disk && Step(s, a).disk[f] == s.disk[f] && s.disk[f].length <= 0x7fff_ffff
    ensures Owned(Step(s, a).disk, f) == Owned(s.disk, f)
  {
    hide Inv, Step, Enabled;
  }

  // The j-th step of the run is the file's last close: until then it holds its sectors, after it they are free.
  ghost predicate ReleasedAt(s: State, run: seq<Action>, f: nat, sectors: set<nat>, j: nat)
    requires Inv(s)
  {
    && j < |run| && AllEnabled(s, run[..j]) && KeepsThroughout(s, run[..j], f, sectors)
    && var r := After(s, run[..j]);
       Enabled(r, run[j]) && LastClose(r, run[j], f) && Released(Step(r, run[j]), f, sectors)
  }

  // Over every run a file holds all of its sectors until one step, the last close of the removed inode, which
  // releases them all; without such a step it holds them throughout.
  lemma {:induction false} HeldUntilLastClose(s: State, run: seq<Action>, f: nat, sectors: set<nat>)
    requires Inv(s) && AllEnabled(s, run) && Keeps(s, f, sectors)
    ensures KeepsThroughout(s, run, f, sectors) || exists j :: ReleasedAt(s, run, f, sectors, j)
    decreases |run|
  {
    hide Inv, Step, Enabled, Keeps, Released, LastClose;
    if run != [] {
      var a, r, rest := run[0], Step(s, run[0]), run[1..];
      StepInv(s, a);
      StepKeepsOrReleases(s, a, f, sectors);
      if LastClose(s, a, f) {
        assert run[..0] == [] && ReleasedAt(s, run, f, sectors, 0);
      } else {
        HeldUntilLastClose(r, rest, f, sectors);
        if j: nat :| ReleasedAt(r, rest, f, sectors, j) {
          assert run[..j + 1][0] == a && run[..j + 1][1..] == rest[..j];
          assert ReleasedAt(s, run, f, sectors, j + 1);
        }
      }
    }
  }

  // So it is from any moment of any run of a formatted device at which f is a file.
  lemma FileOverRuns(sectors: nat, fsMap: nat, root: nat, before: seq<Action>, after: seq<Action>, f: nat)
    requires Formattable(sectors, fsMap, root)
    requires (InitInv(sectors, fsMap, root); AllEnabled(Init(sectors, fsMap, root), before))
    requires (InitInv(sectors, fsMap, root);
              var s := After(Init(sectors, fsMap, root), before);
              f in s.files && AllEnabled(s, after))
    ensures (InitInv(sectors, fsMap, root);
             var s := After(Init(sectors, fsMap, root), before);
             FileNamed(s, f);
             var own := Owned(s.disk, f);
             KeepsThroughout(s, after, f, own) || exists j :: ReleasedAt(s, after, f, own, j))
  {
    hide AllEnabled, After, Init, Step, Keeps, KeepsThroughout, ReleasedAt, Inv;
    InitInv(sectors, fsMap, root);
    var s := After(Init(sectors, fsMap, root), before);
    FileKeeps(s, f);
    HeldUntilLastClose(s, after, f, Owned(s.disk, f));
  }

  // ... and that step is the only one.
  lemma {:induction false} ReleasedOnce(s: State, run: seq<Action>, f: nat, sectors: set<nat>, i: nat, j: nat)
    requires Inv(s) && ReleasedAt(s, run, f, sectors, i) && ReleasedAt(s, run, f, sectors, j)
    ensures i == j
    decreases i
  {
    hide Inv, Step, Enabled, LastClose, KeepsThroughout, AllEnabled, After;
    if i > j {
      ReleasedOnce(s, run, f, sectors, j, i);
    } else if i < j {
      assert run[..j][..i] == run[..i] && run[..j][i] == run[i];
      StillHeld(s, run[..j], f, sectors, i);
    }
  }

  // Along a run that holds the sectors throughout, so does the state after any of its steps.
  lemma {:induction false} StillHeld(s: State, run: seq<Action>, f: nat, sectors: set<nat>, i: nat)
    requires Inv(s) && AllEnabled(s, run) && KeepsThroughout(s, run, f, sectors) && i < |run|
    requires AllEnabled(s, run[..i])
    ensures var r := After(s, run[..i]); Enabled(r, run[i]) && f in Step(r, run[i]).files
    decreases i
  {
    hide Inv, Step, Enabled;
    StepInv(s, run[0]);
    if i > 0 {
      assert run[..i][0] == run[0] && run[..i][1..] == run[1..][..i - 1];
      StillHeld(Step(s, run[0]), run[1..], f, sectors, i - 1);
    }
  }

  // ---- Lost sectors ----

  // A creation that gets all its sectors but cannot add the name.
  predicate Orphans(bits: seq<bool>, a: Action) {
    && a.Create? && a.length > 0 && a.length <= 0x7fff_ffff
    && a.o.dir && a.o.wroteInode && a.o.memory && a.o.wroteData && !a.o.added
    && Allocate(bits, 1, true).0.Some?
    && Allocate(Allocate(bits, 1, true).1, Sectors32(a.length), true).0.Some?
  }

  // A sector that the free map says is in use and that no inode owns.
  ghost predicate Unowned(s: State, k: nat) {
    k < |s.bits| && s.bits[k] && Named(s.disk, s.files) && !OwnedByOne(s.disk, s.files, k)
  }

  lemma LostIsUnowned(s: State, k: nat)
    requires Inv(s)
    ensures k in s.lost <==> Unowned(s, k)
  {
    hide Openness, Separate, Owned, Sectors32;
  }

  // A step leaves a sector in use that no inode owns, and that was not so before, exactly when it is such a
  // creation; and once so, a sector stays so.
  lemma LosesIffOrphans(s: State, a: Action)
    requires Inv(s) && Enabled(s, a)
    ensures (exists k :: Unowned(Step(s, a), k) && !Unowned(s, k)) <==> Orphans(s.bits, a)
    ensures forall k | Unowned(s, k) :: Unowned(Step(s, a), k)
  {
    hide Inv, Step, Enabled, Unowned, Orphans;
    StepInv(s, a);
    StepLoses(s, a);
    var r := Step(s, a);
    forall k: nat ensures (k in s.lost <==> Unowned(s, k)) && (k in r.lost <==> Unowned(r, k)) {
      LostIsUnowned(s, k);
      LostIsUnowned(r, k);
    }
    if r.lost != s.lost {
      var k :| k in r.lost && k !in s.lost;
      assert Unowned(r, k) && !Unowned(s, k);
    }
  }

  // A device of eight sectors, formatted with one-sector files: a creation whose name cannot be added leaves
  // a sector in use that no inode owns.
  lemma OrphanExample()
    ensures Formattable(8, 4, 320)
    ensures (InitInv(8, 4, 320);
             var s, a := Init(8, 4, 320), Create(1, Outcome(true, true, true, true, false));
             exists k :: Unowned(Step(s, a), k))
  {
    hide Inv, Step, Unowned, Allocate, Scan;
    InitInv(8, 4, 320);
    var s, a := Init(8, 4, 320), Create(1, Outcome(true, true, true, true, false));
    assert s.bits == [true, true, true, true, false, false, false, false];
    assert Clear(s.bits, 4, 1);
    var (inode, bits) := Allocate(s.bits, 1, true);
    assert Clear(bits, if inode.value == 4 then 5 else 4, 1);
    assert Orphans(s.bits, a);
    LosesIffOrphans(s, a);
  }

  lemma StepLoses(s: State, a: Action)
    requires Inv(s) && Enabled(s, a)
    ensures s.lost <= Step(s, a).lost
    ensures Step(s, a).lost != s.lost <==> Orphans(s.bits, a)
  {
    hide Blocks, Openness, CreateStep, MemOk, Allocate, Owned, Mark;
    if a.Create? {
      CreateLoses(s, a.length, a.o);
    }
  }

  lemma CreateLoses(s: State, length: nat, o: Outcome)
    requires Inv(s) && length <= 0x7fff_ffff
    ensures s.lost <= CreateStep(s, length, o).lost
    ensures CreateStep(s, length, o).lost != s.lost <==> Orphans(s.bits, Create(length, o))
  {
    hide Openness, Blocks, Scan, Mark, Clear, Sectors32, Allocate, DataSectors;
    if o.dir && o.wroteInode && o.memory && o.wroteData {
      var (inode, bits) := Allocate(s.bits, 1, true);
      if inode.Some? {
        var n := Sectors32(length);
        var (start, more) := Allocate(bits, n, true);
        if start.Some? {
          NewLosses(s, length, inode.value, start.value);
        }
      }
    }
  }

  // Sectors just allocated were not lost before.
  lemma NewLosses(s: State, length: nat, f: nat, start: nat)
    requires Inv(s) && length <= 0x7fff_ffff && Clear(s.bits, f, 1)
    requires Clear(Mark(s.bits, f, 1, true), start, Sectors32(length))
    ensures s.lost + DataSectors(Data(start, length)) != s.lost <==> length > 0
  {
    hide Openness, Sectors32, Separate;
    Allocated(s.bits, Sectors32(length), length, f, start);
    EmptyFile(length);
    if length > 0 {
      assert start in DataSectors(Data(start, length)) && start !in s.lost;
    }
  }

  lemma EmptyFile(length: nat)
    requires length <= 0x7fff_ffff
    ensures Sectors32(length) > 0 <==> length > 0
  {}
}
