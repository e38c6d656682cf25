// inode_read_at() and inode_write_at() of proj-pregame/src/filesys/inode.c over a device of 512-byte
// sectors, and the flat sequence of bytes that a file is.
module Inode {
  type Byte = bv8

  const SECTOR: nat := 512

  // A sector as memset() leaves it.
  const ZEROS: seq<Byte> := seq(512, _ => 0)

  type Disk = seq<seq<Byte>>

  // The part of the on-disk inode that places the file: first data sector and length in bytes.
  datatype Data = Data(start: nat, length: nat)

  ghost predicate Device(disk: Disk) {
    forall s | 0 <= s < |disk| :: |disk[s]| == 512
  }

  // bytes_to_sectors()
  function SectorsFor(length: nat): (n: nat)
    ensures 512 * n >= length && 512 * n < length + 512
  {
    (length + 511) / 512
  }

  ghost predicate Holds(disk: Disk, file: Data) {
    Device(disk) && file.start + SectorsFor(file.length) <= |disk|
  }

  // byte_to_sector(): the sector of byte `pos`, or nothing past the end of the file.
  function ByteToSector(file: Data, pos: nat): (s: int)
    ensures pos < file.length ==> file.start <= s < file.start + SectorsFor(file.length)
    ensures pos >= file.length ==> s == -1
  {
    if pos < file.length then file.start + pos / 512 else -1
  }

  // The byte of the file at position `pos`.
  function At(disk: Disk, file: Data, pos: nat): Byte
    requires Holds(disk, file) && pos < file.length
  {
    disk[ByteToSector(file, pos)][pos % 512]
  }

  // The file as a flat sequence.
  function Flat(disk: Disk, file: Data): (f: seq<Byte>)
    requires Holds(disk, file)
    ensures |f| == file.length
  {
    seq(file.length, pos requires 0 <= pos < file.length && Holds(disk, file) => At(disk, file, pos))
  }

  // The device with `data` written from byte `offset` of the sectors that begin at `start`; every byte of
  // every sector is given, so this also says what stays.
  function Written(disk: Disk, start: nat, offset: int, data: seq<Byte>): (r: Disk)
    requires Device(disk)
    ensures Device(r) && |r| == |disk|
  {
    seq(|disk|, s requires 0 <= s < |disk| => seq(512, k requires 0 <= k < 512 =>
      WrittenByte(disk[s], start, offset, data, s, k)))
  }

  function WrittenByte(sector: seq<Byte>, start: nat, offset: int, data: seq<Byte>, s: int, k: int): Byte
    requires |sector| == 512 && 0 <= k < 512
  {
    var pos := (s - start) * 512 + k;
    if offset <= pos < offset + |data| then data[pos - offset] else sector[k]
  }

  // How many bytes a call transfers: what is asked for, up to the end of the file; without memory for a
  // bounce buffer only whole sectors, and none at all if the first is not whole.
  function Wanted(length: nat, size: int, offset: int): (n: nat)
    ensures n == 0 <==> size <= 0 || offset >= length
    ensures n > 0 ==> n <= size && offset + n <= length && (n == size || offset + n == length)
  {
    if size <= 0 || offset >= length then 0 else if size < length - offset then size else length - offset
  }

  function Transferred(length: nat, size: int, offset: int, memory: bool): (n: nat)
    ensures n <= Wanted(length, size, offset) && (memory ==> n == Wanted(length, size, offset))
    ensures !memory ==> n % 512 == 0 && (n > 0 ==> offset % 512 == 0)
    ensures !memory && offset % 512 == 0 ==> Wanted(length, size, offset) < n + 512
  {
    var n := Wanted(length, size, offset);
    if memory then n else if offset % 512 != 0 then 0 else n - n % 512
  }

  // ---- Writing ----

  lemma WrittenAt(disk: Disk, start: nat, offset: int, data: seq<Byte>, s: nat, k: nat)
    requires Device(disk) && s < |disk| && k < 512
    ensures Written(disk, start, offset, data)[s][k] == WrittenByte(disk[s], start, offset, data, s, k)
  {
    hide WrittenByte;
  }

  lemma SameDisk(a: Disk, b: Disk)
    requires Device(a) && Device(b) && |a| == |b|
    requires forall s, k | 0 <= s < |a| && 0 <= k < 512 :: a[s][k] == b[s][k]
    ensures a == b
  {
    forall s | 0 <= s < |a| ensures a[s] == b[s] {}
  }

  lemma WrittenNothing(disk: Disk, start: nat, offset: int)
    requires Device(disk)
    ensures Written(disk, start, offset, []) == disk
  {
    hide Written;
    forall s, k | 0 <= s < |disk| && 0 <= k < 512 ensures Written(disk, start, offset, [])[s][k] == disk[s][k] {
      WrittenAt(disk, start, offset, [], s, k);
    }
    SameDisk(Written(disk, start, offset, []), disk);
  }

  // Two adjacent writes are one.
  lemma WrittenTwice(disk: Disk, start: nat, offset: nat, a: seq<Byte>, b: seq<Byte>)
    requires Device(disk)
    ensures Written(Written(disk, start, offset, a), start, offset + |a|, b) == Written(disk, start, offset, a + b)
  {
    hide Written;
    var one, two, both := Written(disk, start, offset, a), Written(Written(disk, start, offset, a), start, offset + |a|, b), Written(disk, start, offset, a + b);
    forall s, k | 0 <= s < |disk| && 0 <= k < 512 ensures two[s][k] == both[s][k] {
      WrittenAt(disk, start, offset, a, s, k);
      WrittenAt(one, start, offset + |a|, b, s, k);
      WrittenAt(disk, start, offset, a + b, s, k);
    }
    SameDisk(two, both);
  }

  // Replacing a piece of one sector.
  function Patched(sector: seq<Byte>, ofs: nat, data: seq<Byte>): (r: seq<Byte>)
    requires ofs + |data| <= |sector|
    ensures |r| == |sector|
  {
    sector[..ofs] + data + sector[ofs + |data|..]
  }

  lemma ChunkWritten(disk: Disk, start: nat, offset: nat, data: seq<Byte>)
    requires Device(disk) && start + offset / 512 < |disk| && offset % 512 + |data| <= 512
    ensures var s := start + offset / 512;
            Device(disk[s := Patched(disk[s], offset % 512, data)])
            && disk[s := Patched(disk[s], offset % 512, data)] == Written(disk, start, offset, data)
  {
    hide Written;
    var s, o := start + offset / 512, offset % 512;
    var r := disk[s := Patched(disk[s], o, data)];
    forall t, k | 0 <= t < |disk| && 0 <= k < 512 ensures r[t][k] == Written(disk, start, offset, data)[t][k] {
      WrittenAt(disk, start, offset, data, t, k);
      var pos := (t - start) * 512 + k;
      assert offset <= pos < offset + |data| <==> t == s && o <= k < o + |data|;
    }
    SameDisk(r, Written(disk, start, offset, data));
  }

  // ---- What a write means for files ----

  // The file becomes what splicing the data into the flat sequence gives.
  lemma WriteIsSplice(disk: Disk, file: Data, offset: nat, data: seq<Byte>)
    requires Holds(disk, file) && offset + |data| <= file.length
    ensures Holds(Written(disk, file.start, offset, data), file)
    ensures Flat(Written(disk, file.start, offset, data), file)
         == Flat(disk, file)[..offset] + data + Flat(disk, file)[offset + |data|..]
  {
    hide Written;
    var after := Written(disk, file.start, offset, data);
    var want := Flat(disk, file)[..offset] + data + Flat(disk, file)[offset + |data|..];
    forall pos: nat | pos < file.length ensures Flat(after, file)[pos] == want[pos] {
      WrittenAt(disk, file.start, offset, data, ByteToSector(file, pos), pos % 512);
    }
  }

  // A file on other sectors is not affected.
  lemma WriteLeavesOthers(disk: Disk, file: Data, offset: nat, data: seq<Byte>, other: Data)
    requires Holds(disk, file) && Holds(disk, other) && offset + |data| <= file.length
    requires file.start + SectorsFor(file.length) <= other.start || other.start + SectorsFor(other.length) <= file.start
    ensures Holds(Written(disk, file.start, offset, data), other)
    ensures Flat(Written(disk, file.start, offset, data), other) == Flat(disk, other)
  {
    hide Written;
    var after := Written(disk, file.start, offset, data);
    forall pos: nat | pos < other.length ensures Flat(after, other)[pos] == Flat(disk, other)[pos] {
      WrittenAt(disk, file.start, offset, data, ByteToSector(other, pos), pos % 512);
    }
  }

  // Neither is any byte of any sector outside the written range.
  lemma WriteLeavesRest(disk: Disk, file: Data, offset: nat, data: seq<Byte>, s: nat, k: nat)
    requires Holds(disk, file) && offset + |data| <= file.length && s < |disk| && k < 512
    requires !(offset <= (s - file.start) * 512 + k < offset + |data|)
    ensures Written(disk, file.start, offset, data)[s][k] == disk[s][k]
  {
    hide Written;
    WrittenAt(disk, file.start, offset, data, s, k);
  }

  // What one writes is what one then reads.
  lemma ReadAfterWrite(disk: Disk, file: Data, offset: nat, data: seq<Byte>)
    requires Holds(disk, file) && offset + |data| <= file.length
    ensures Holds(Written(disk, file.start, offset, data), file)
    ensures Flat(Written(disk, file.start, offset, data), file)[offset..offset + |data|] == data
  {
    hide Written, Flat;
    WriteIsSplice(disk, file, offset, data);
    var f := Flat(disk, file);
    assert (f[..offset] + data + f[offset + |data|..])[offset..offset + |data|] == data;
  }

  // ---- The loops ----

  // The number of bytes to copy in one turn, with `left` bytes still asked for at `pos`.
  function Chunk(length: nat, left: int, pos: int): int {
    var minLeft := if length - pos < 512 - pos % 512 then length - pos else 512 - pos % 512;
    if left < minLeft then left else minLeft
  }

  predicate WholeSector(length: nat, left: int, pos: int) {
    pos % 512 == 0 && Chunk(length, left, pos) == 512
  }

  // Between two turns n bytes have been transferred.
  ghost predicate Going(length: nat, size: int, offset: int, memory: bool, n: nat) {
    && n <= Wanted(length, size, offset)
    && (!memory && n > 0 ==> offset % 512 == 0 && n % 512 == 0)
    && (n > 0 ==> (offset + n) % 512 == 0 || n == size || offset + n == length)
  }

  lemma GoingStarts(length: nat, size: int, offset: int, memory: bool)
    ensures Going(length, size, offset, memory, 0)
  {}

  lemma GoingTurn(length: nat, size: int, offset: int, memory: bool, n: nat, chunk: int)
    requires Going(length, size, offset, memory, n)
    requires chunk == Chunk(length, size - n, offset + n) > 0
    ensures n + chunk <= size && offset + n + chunk <= length && (offset + n) % 512 + chunk <= 512
    ensures memory || WholeSector(length, size - n, offset + n) ==> Going(length, size, offset, memory, n + chunk)
  {}

  lemma GoingEnds(length: nat, size: int, offset: int, memory: bool, n: nat)
    requires Going(length, size, offset, memory, n)
    requires size - n <= 0 || Chunk(length, size - n, offset + n) <= 0
             || (!memory && !WholeSector(length, size - n, offset + n))
    ensures n == Transferred(length, size, offset, memory)
    ensures n > 0 ==> n <= size && offset + n <= length
  {}

  class BlockDevice {
    var disk: Disk

    constructor (sectors: nat)
      ensures Device(disk) && |disk| == sectors
    {
      disk := seq(sectors, _ => seq(512, _ => 0));
    }

    // The part of inode_create() that clears a new file.
    method ZeroData(file: Data)
      requires Holds(disk, file)
      modifies this
      ensures Holds(disk, file) && |disk| == |old(disk)|
      ensures Flat(disk, file) == seq(file.length, _ => 0)
      ensures forall s | 0 <= s < |disk| && !(file.start <= s < file.start + SectorsFor(file.length)) :: disk[s] == old(disk)[s]
    {
      var n := SectorsFor(file.length);
      var i: nat := 0;
      while i < n
        invariant i <= n && Holds(disk, file) && |disk| == |old(disk)|
        invariant forall s | 0 <= s < |disk| :: disk[s] == if file.start <= s < file.start + i then ZEROS else old(disk)[s]
      {
        disk := disk[file.start + i := ZEROS];
        i := i + 1;
      }
    }

    // inode_read_at(); `memory` says whether malloc() has room for a bounce buffer.
    method ReadAt(file: Data, buffer: array<Byte>, size: int, offset: int, memory: bool) returns (n: nat)
      requires Holds(disk, file) && size <= buffer.Length && (size > 0 ==> offset >= 0)
      modifies buffer
      ensures n == Transferred(file.length, size, offset, memory)
      ensures n > 0 ==> 0 <= offset && offset + n <= file.length && buffer[..n] == Flat(disk, file)[offset..offset + n]
      ensures forall i | n <= i < buffer.Length :: buffer[i] == old(buffer[i])
    {
      hide Flat, Going, Transferred, At, Holds;
      n := 0;
      var left := size;
      var pos := offset;
      GoingStarts(file.length, size, offset, memory);
      while left > 0
        invariant left == size - n && pos == offset + n
        invariant Going(file.length, size, offset, memory, n)
        invariant n > 0 ==> n <= size && 0 <= offset && offset + n <= file.length
        invariant forall i | 0 <= i < n :: buffer[i] == At(disk, file, offset + i)
        invariant forall i | n <= i < buffer.Length :: buffer[i] == old(buffer[i])
      {
        var sector := ByteToSector(file, pos);
        var ofs := pos % 512;
        var inodeLeft := file.length - pos;
        var sectorLeft := 512 - ofs;
        var minLeft := if inodeLeft < sectorLeft then inodeLeft else sectorLeft;
        var chunk := if left < minLeft then left else minLeft;
        if chunk <= 0 {
          break;
        }
        GoingTurn(file.length, size, offset, memory, n, chunk);
        ReadTurn(disk, file, pos, chunk);
        if ofs == 0 && chunk == 512 {
          Copy(buffer, n, disk[sector], 0, 512);
        } else {
          if !memory {
            break;
          }
          Copy(buffer, n, disk[sector], ofs, chunk);
        }
        left := left - chunk;
        pos := pos + chunk;
        n := n + chunk;
      }
      GoingEnds(file.length, size, offset, memory, n);
      if n > 0 {
        FlatSlice(disk, file, offset, n, buffer[..n]);
      }
    }

    // inode_write_at(); `denied` says whether deny_write_cnt is nonzero.
    method WriteAt(file: Data, buffer: seq<Byte>, size: int, offset: int, denied: bool, memory: bool) returns (n: nat)
      requires Holds(disk, file) && size <= |buffer| && (size > 0 && !denied ==> offset >= 0)
      modifies this
      ensures n == if denied then 0 else Transferred(file.length, size, offset, memory)
      ensures Holds(disk, file) && disk == Written(old(disk), file.start, offset, buffer[..n])
    {
      hide Written, SectorsFor, Going, Transferred;
      n := 0;
      WrittenNothing(disk, file.start, offset);
      if denied {
        return;
      }
      var left := size;
      var pos := offset;
      GoingStarts(file.length, size, offset, memory);
      while left > 0
        invariant left == size - n && pos == offset + n
        invariant Going(file.length, size, offset, memory, n)
        invariant n > 0 ==> n <= size && 0 <= offset && offset + n <= file.length
        invariant Holds(disk, file)
        invariant disk == Written(old(disk), file.start, offset, buffer[..n])
      {
        var sector := ByteToSector(file, pos);
        var ofs := pos % 512;
        var inodeLeft := file.length - pos;
        var sectorLeft := 512 - ofs;
        var minLeft := if inodeLeft < sectorLeft then inodeLeft else sectorLeft;
        var chunk := if left < minLeft then left else minLeft;
        if chunk <= 0 {
          break;
        }
        GoingTurn(file.length, size, offset, memory, n, chunk);
        ghost var data := buffer[n..n + chunk];
        WriteTurn(old(disk), disk, file, offset, buffer, n, chunk);
        if ofs == 0 && chunk == 512 {
          disk := disk[sector := buffer[n..n + chunk]];
        } else {
          if !memory {
            break;
          }
          assert ofs > 0 || chunk < sectorLeft;       // so the sector is always read first
          var bounce := if ofs > 0 || chunk < sectorLeft then disk[sector] else ZEROS;
          bounce := bounce[..ofs] + buffer[n..n + chunk] + bounce[ofs + chunk..];
          disk := disk[sector := bounce];
        }
        left := left - chunk;
        pos := pos + chunk;
        n := n + chunk;
      }
      GoingEnds(file.length, size, offset, memory, n);
    }
  }

  lemma WriteTurn(was: Disk, disk: Disk, file: Data, offset: nat, buffer: seq<Byte>, n: nat, chunk: nat)
    requires n + chunk <= |buffer| && Device(was) && Holds(disk, file)
    requires disk == Written(was, file.start, offset, buffer[..n])
    requires 0 < chunk && offset + n + chunk <= file.length && (offset + n) % 512 + chunk <= 512
    ensures var s, o := file.start + (offset + n) / 512, (offset + n) % 512;
            && s < |disk| && |disk[s]| == 512
            && var next := disk[s := Patched(disk[s], o, buffer[n..n + chunk])];
               && (chunk == 512 ==> Patched(disk[s], o, buffer[n..n + chunk]) == buffer[n..n + chunk])
               && Holds(next, file) && next == Written(was, file.start, offset, buffer[..n + chunk])
  {
    hide Written;
    var a, b := buffer[..n], buffer[n..n + chunk];
    assert buffer[..n + chunk] == a + b;
    WrittenTwice(was, file.start, offset, a, b);
    ChunkWritten(disk, file.start, offset + n, b);
  }

  lemma ReadTurn(disk: Disk, file: Data, pos: nat, chunk: nat)
    requires Holds(disk, file) && 0 < chunk && pos + chunk <= file.length && pos % 512 + chunk <= 512
    ensures var s := ByteToSector(file, pos);
            && 0 <= s < |disk| && |disk[s]| == 512
            && forall j | pos <= j < pos + chunk :: At(disk, file, j) == disk[s][pos % 512 + j - pos]
  {}

  // block_read() and memcpy() into the caller's buffer.
  method Copy(buffer: array<Byte>, at: nat, sector: seq<Byte>, ofs: nat, count: nat)
    requires at + count <= buffer.Length && ofs + count <= |sector|
    modifies buffer
    ensures forall i | 0 <= i < buffer.Length ::
              buffer[i] == if at <= i < at + count then sector[ofs + i - at] else old(buffer[i])
  {
    forall i | 0 <= i < count {
      buffer[at + i] := sector[ofs + i];
    }
  }

  lemma FlatSlice(disk: Disk, file: Data, offset: nat, n: nat, bytes: seq<Byte>)
    requires Holds(disk, file) && |bytes| == n && (n > 0 ==> offset + n <= file.length)
    requires forall i | 0 <= i < n :: bytes[i] == At(disk, file, offset + i)
    ensures n > 0 ==> bytes == Flat(disk, file)[offset..offset + n]
  {}
}
