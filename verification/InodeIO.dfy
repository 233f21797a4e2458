/** Reading and writing an inode's data, sector by sector, on a block device of 512-byte sectors. */
module InodeIO {
  import opened Basics

  const SECTOR_SIZE: nat := 512

  type Sector = s: seq<byte> | |s| == SECTOR_SIZE witness seq(SECTOR_SIZE, _ => 0)

  /** A block device, addressed by sector. */
  class Block {
    var sectors: seq<Sector>

    constructor (n: nat)
      ensures sectors == seq(n, _ => seq(SECTOR_SIZE, _ => 0))
    {
      sectors := seq(n, _ => seq(SECTOR_SIZE, _ => 0));
    }

    method Read(sector: nat) returns (s: Sector)
      requires sector < |sectors|
      ensures s == sectors[sector]
    {
      s := sectors[sector];
    }

    method Write(sector: nat, s: Sector)
      requires sector < |sectors|
      modifies this
      ensures sectors == old(sectors)[sector := s]
    {
      sectors := sectors[sector := s];
    }
  }

  /** The part of an in-memory inode that data transfer uses. */
  datatype Inode = Inode(start: nat, length: nat, denyWriteCnt: nat)

  function BytesToSectors(size: nat): nat { (size + SECTOR_SIZE - 1) / SECTOR_SIZE }

  /** The inode's extent lies on the device. */
  ghost predicate OnDevice(disk: seq<Sector>, inode: Inode) {
    inode.start + BytesToSectors(inode.length) <= |disk|
  }

  /** Byte a of the device, counted through all sectors. */
  ghost function At(disk: seq<Sector>, a: nat): byte
    requires a / SECTOR_SIZE < |disk|
  {
    disk[a / SECTOR_SIZE][a % SECTOR_SIZE]
  }

  /** Device address of byte pos of the inode. */
  function Address(inode: Inode, pos: nat): nat { inode.start * SECTOR_SIZE + pos }

  /** The file: one byte sequence of fixed length. */
  ghost function Data(disk: seq<Sector>, inode: Inode): (d: seq<byte>)
    requires OnDevice(disk, inode)
    ensures |d| == inode.length
    ensures forall i {:trigger d[i]} :: 0 <= i < inode.length ==>
      Address(inode, i) / SECTOR_SIZE < |disk| && d[i] == At(disk, Address(inode, i))
  {
    seq(inode.length, i requires 0 <= i < inode.length => At(disk, Address(inode, i)))
  }

  /** Bytes a transfer of `size` bytes at `offset` covers: clipped at end of file. */
  function Clip(length: nat, size: int, offset: nat): nat {
    if size <= 0 || offset >= length then 0 else if size < length - offset then size else length - offset
  }

  /** `now` is `was` with `bytes` stored from device address `a` on; every other byte is as before. */
  ghost predicate Stored(was: seq<Sector>, now: seq<Sector>, a: nat, bytes: seq<byte>) {
    && |now| == |was|
    && forall x {:trigger At(now, x)} :: 0 <= x && x / SECTOR_SIZE < |was| ==>
         At(now, x) == if a <= x < a + |bytes| then bytes[x - a] else At(was, x)
  }

  /** One turn of either loop: the sector, the offset in it and the number of bytes copied. */
  function Chunk(inode: Inode, size: int, offset: nat): (c: int)
    ensures c <= 0 <==> Clip(inode.length, size, offset) == 0
    ensures c > 0 ==> c <= Clip(inode.length, size, offset) && offset % SECTOR_SIZE + c <= SECTOR_SIZE
    ensures c > 0 ==> c == Clip(inode.length, size, offset) || offset % SECTOR_SIZE + c == SECTOR_SIZE
  {
    var inodeLeft := inode.length - offset;
    var sectorLeft := SECTOR_SIZE - offset % SECTOR_SIZE;
    var minLeft := if inodeLeft < sectorLeft then inodeLeft else sectorLeft;
    if size < minLeft then size else minLeft
  }

  lemma SectorOf(disk: seq<Sector>, inode: Inode, offset: nat)
    requires OnDevice(disk, inode) && offset < inode.length
    ensures inode.start + offset / SECTOR_SIZE < |disk|
    ensures Address(inode, offset) / SECTOR_SIZE == inode.start + offset / SECTOR_SIZE
    ensures Address(inode, offset) % SECTOR_SIZE == offset % SECTOR_SIZE
  {
  }

  /** Rewriting part [ofs, ofs + |bytes|) of one sector stores the bytes at its device address. */
  lemma PartialWrite(was: seq<Sector>, sector: nat, ofs: nat, bytes: seq<byte>, s: Sector)
    requires sector < |was| && ofs + |bytes| <= SECTOR_SIZE
    requires s == was[sector][..ofs] + bytes + was[sector][ofs + |bytes|..]
    ensures Stored(was, was[sector := s], sector * SECTOR_SIZE + ofs, bytes)
  {
    var now := was[sector := s];
    forall x | 0 <= x && x / SECTOR_SIZE < |was|
      ensures var a := sector * SECTOR_SIZE + ofs;
        At(now, x) == if a <= x < a + |bytes| then bytes[x - a] else At(was, x)
    {
      assert x == (x / SECTOR_SIZE) * SECTOR_SIZE + x % SECTOR_SIZE;
    }
  }

  /** Storing twice in a row is storing the concatenation. */
  lemma StoredAppend(d0: seq<Sector>, d1: seq<Sector>, d2: seq<Sector>, a: nat, b1: seq<byte>, b2: seq<byte>)
    requires Stored(d0, d1, a, b1) && Stored(d1, d2, a + |b1|, b2)
    ensures Stored(d0, d2, a, b1 + b2) && |d2| == |d0|
  {
    forall x | 0 <= x && x / SECTOR_SIZE < |d0|
      ensures At(d2, x) == if a <= x < a + |b1 + b2| then (b1 + b2)[x - a] else At(d0, x)
    {
      assert At(d1, x) == if a <= x < a + |b1| then b1[x - a] else At(d0, x);
    }
  }

  /** One sector's worth of inode_write_at: a full sector is written directly, a partial one is
      read, patched and written back. */
  method WriteChunk(dev: Block, inode: Inode, part: seq<byte>, pos: nat)
    requires OnDevice(dev.sectors, inode) && pos < inode.length && pos % SECTOR_SIZE + |part| <= SECTOR_SIZE
    modifies dev
    ensures Stored(old(dev.sectors), dev.sectors, Address(inode, pos), part)
  {
    SectorOf(dev.sectors, inode, pos);
    var sector, ofs := inode.start + pos / SECTOR_SIZE, pos % SECTOR_SIZE;
    ghost var was := dev.sectors;
    assert sector * SECTOR_SIZE + ofs == Address(inode, pos);
    hide Stored, OnDevice, Address;
    if ofs == 0 && |part| == SECTOR_SIZE {
      assert part == was[sector][..ofs] + part + was[sector][ofs + |part|..];
      PartialWrite(was, sector, ofs, part, part);
      dev.Write(sector, part);
    } else {
      var bounce := dev.Read(sector);
      bounce := bounce[..ofs] + part + bounce[ofs + |part|..];
      PartialWrite(was, sector, ofs, part, bounce);
      dev.Write(sector, bounce);
    }
  }

  /** inode_write_at: the bytes written are a prefix of the buffer, clipped at end of file; nothing
      else on the device changes.  Without memory for the bounce buffer it may stop early. */
  method WriteAt(dev: Block, inode: Inode, buffer: seq<byte>, size: int, offset: nat, bounceOk: bool)
    returns (written: nat)
    requires OnDevice(dev.sectors, inode) && size <= |buffer|
    modifies dev
    ensures inode.denyWriteCnt > 0 ==> written == 0
    ensures written <= Clip(inode.length, size, offset)
    ensures inode.denyWriteCnt == 0 && bounceOk ==> written == Clip(inode.length, size, offset)
    ensures written <= |buffer| && Stored(old(dev.sectors), dev.sectors, Address(inode, offset), buffer[..written])
  {
    written := 0;
    NothingStored(dev.sectors, Address(inode, offset));
    assert buffer[..0] == [];
    hide Clip, Chunk, Stored;
    if inode.denyWriteCnt != 0 {
      return;
    }
    var left, pos := size, offset;
    while left > 0
      invariant left == size - written && pos == offset + written
      invariant written <= Clip(inode.length, size, offset)
      invariant |dev.sectors| == old(|dev.sectors|)
      invariant 0 <= written <= |buffer|
      invariant Stored(old(dev.sectors), dev.sectors, Address(inode, offset), buffer[..written])
      decreases left
    {
      var chunk := Chunk(inode, left, pos);
      Advance(inode.length, size, offset, written);
      if chunk <= 0 || (!(pos % SECTOR_SIZE == 0 && chunk == SECTOR_SIZE) && !bounceOk) {
        break;
      }
      Covered(inode.length, left, pos);
      var part := buffer[written..written + chunk];
      ghost var was := dev.sectors;
      WriteChunk(dev, inode, part, pos);
      StoredAppend(old(dev.sectors), was, dev.sectors, Address(inode, offset), buffer[..written], part);
      assert buffer[..written] + part == buffer[..written + chunk];
      left, pos, written := left - chunk, pos + chunk, written + chunk;
    }
    Finished(inode.length, size, offset, written);
  }

  lemma NothingStored(disk: seq<Sector>, a: nat)
    ensures Stored(disk, disk, a, [])
  {
  }

  lemma Covered(length: nat, size: int, offset: nat)
    ensures Clip(length, size, offset) > 0 ==> offset + Clip(length, size, offset) <= length
    ensures Clip(length, size, offset) > 0 ==> Clip(length, size, offset) <= size
  {
  }

  /** What is left to transfer after `done` bytes. */
  lemma Advance(length: nat, size: int, offset: nat, done: nat)
    requires done <= Clip(length, size, offset)
    ensures Clip(length, size - done, offset + done) == Clip(length, size, offset) - done
  {
  }

  lemma Finished(length: nat, size: int, offset: nat, done: nat)
    requires done <= Clip(length, size, offset)
    ensures size - done <= 0 ==> done == Clip(length, size, offset)
  {
  }

  /** The first `read` bytes of the buffer are the slice of `d` at `offset`, the rest is as it was. */
  ghost predicate Filled(was: seq<byte>, now: seq<byte>, d: seq<byte>, offset: nat, read: nat) {
    && read <= |now| == |was|
    && (read > 0 ==> offset + read <= |d| && now[..read] == d[offset..offset + read])
    && now[read..] == was[read..]
  }

  /** inode_read_at: the buffer's first bytes become a slice of the file, clipped at end of file;
      the rest of the buffer is as before. */
  method ReadAt(dev: Block, inode: Inode, buffer: array<byte>, size: int, offset: nat, bounceOk: bool)
    returns (read: nat)
    requires OnDevice(dev.sectors, inode) && size <= buffer.Length
    modifies buffer
    ensures read <= Clip(inode.length, size, offset) && read <= buffer.Length
    ensures bounceOk ==> read == Clip(inode.length, size, offset)
    ensures Filled(old(buffer[..]), buffer[..], Data(dev.sectors, inode), offset, read)
  {
    hide Clip, Chunk, OnDevice, At, Filled;
    StartFilling(buffer[..], Data(dev.sectors, inode), offset);
    ghost var d := Data(dev.sectors, inode);
    read := 0;
    var left, pos := size, offset;
    while left > 0
      invariant left == size - read && pos == offset + read
      invariant 0 <= read <= Clip(inode.length, size, offset)
      invariant read <= buffer.Length
      invariant Filled(old(buffer[..]), buffer[..], d, offset, read)
      decreases left
    {
      var chunk := Chunk(inode, left, pos);
      Advance(inode.length, size, offset, read);
      if chunk <= 0 || (!(pos % SECTOR_SIZE == 0 && chunk == SECTOR_SIZE) && !bounceOk) {
        break;
      }
      Covered(inode.length, left, pos);
      var bytes := ReadChunk(dev, inode, pos, chunk);
      ghost var before := buffer[..];
      CopyIn(buffer, read, bytes);
      FillMore(old(buffer[..]), before, buffer[..], d, offset, read, chunk);
      left, pos, read := left - chunk, pos + chunk, read + chunk;
    }
    Finished(inode.length, size, offset, read);
  }

  /** One sector's worth of inode_read_at. */
  method ReadChunk(dev: Block, inode: Inode, pos: nat, n: nat) returns (bytes: seq<byte>)
    requires OnDevice(dev.sectors, inode) && pos < inode.length && pos + n <= inode.length
    requires pos % SECTOR_SIZE + n <= SECTOR_SIZE
    ensures bytes == Data(dev.sectors, inode)[pos..pos + n]
  {
    SectorSlice(dev.sectors, inode, pos, n);
    var bounce := dev.Read(inode.start + pos / SECTOR_SIZE);
    var ofs := pos % SECTOR_SIZE;
    bytes := bounce[ofs..ofs + n];
  }

  /** memcpy into a buffer. */
  method CopyIn(buffer: array<byte>, at: nat, bytes: seq<byte>)
    requires at + |bytes| <= buffer.Length
    modifies buffer
    ensures buffer[..] == old(buffer[..])[..at] + bytes + old(buffer[..])[at + |bytes|..]
  {
    ghost var was := buffer[..];
    for i := 0 to |bytes|
      invariant forall k :: 0 <= k < buffer.Length ==> buffer[k] == if at <= k < at + i then bytes[k - at] else was[k]
    {
      buffer[at + i] := bytes[i];
    }
  }

  lemma StartFilling(was: seq<byte>, d: seq<byte>, offset: nat)
    ensures Filled(was, was, d, offset, 0)
  {
  }

  lemma FillMore(was: seq<byte>, now: seq<byte>, next: seq<byte>, d: seq<byte>, offset: nat, read: nat, chunk: nat)
    requires Filled(was, now, d, offset, read)
    requires 0 < chunk && read + chunk <= |was| && offset + read + chunk <= |d|
    requires next == now[..read] + d[offset + read..offset + read + chunk] + now[read + chunk..]
    ensures Filled(was, next, d, offset, read + chunk)
  {
    assert now[..read] == d[offset..offset + read];
    assert now[read + chunk..] == now[read..][chunk..];
    assert was[read + chunk..] == was[read..][chunk..];
  }

  /** A stretch of one sector is a slice of the file. */
  lemma SectorSlice(disk: seq<Sector>, inode: Inode, pos: nat, n: nat)
    requires OnDevice(disk, inode) && pos + n <= inode.length && pos < inode.length
    requires pos % SECTOR_SIZE + n <= SECTOR_SIZE
    ensures inode.start + pos / SECTOR_SIZE < |disk|
    ensures var s, ofs := disk[inode.start + pos / SECTOR_SIZE], pos % SECTOR_SIZE;
      s[ofs..ofs + n] == Data(disk, inode)[pos..pos + n]
  {
    var d, s, ofs := Data(disk, inode), disk[inode.start + pos / SECTOR_SIZE], pos % SECTOR_SIZE;
    var x, y := s[ofs..ofs + n], d[pos..pos + n];
    forall i | 0 <= i < n
      ensures x[i] == y[i]
    {
      assert y[i] == d[pos + i] == At(disk, Address(inode, pos + i));
    }
  }

  /** A write is an update of one slice of the file. */
  lemma WriteIsSliceUpdate(was: seq<Sector>, now: seq<Sector>, inode: Inode, offset: nat, bytes: seq<byte>)
    requires OnDevice(was, inode) && offset + |bytes| <= inode.length
    requires Stored(was, now, Address(inode, offset), bytes)
    ensures OnDevice(now, inode)
    ensures Data(now, inode) == Data(was, inode)[..offset] + bytes + Data(was, inode)[offset + |bytes|..]
  {
    var d, e := Data(was, inode), Data(now, inode);
    forall i | 0 <= i < inode.length
      ensures e[i] == if offset <= i < offset + |bytes| then bytes[i - offset] else d[i]
    {
      assert e[i] == At(now, Address(inode, i)) && d[i] == At(was, Address(inode, i));
    }
  }

  /** A read at the place of a write returns the bytes written. */
  lemma ReadBack(was: seq<Sector>, now: seq<Sector>, inode: Inode, offset: nat, bytes: seq<byte>)
    requires OnDevice(was, inode) && offset + |bytes| <= inode.length
    requires Stored(was, now, Address(inode, offset), bytes)
    ensures OnDevice(now, inode) && Data(now, inode)[offset..offset + |bytes|] == bytes
  {
    WriteIsSliceUpdate(was, now, inode, offset, bytes);
  }

  /** The extents of two inodes share no sector. */
  ghost predicate Apart(a: Inode, b: Inode) {
    a.start + BytesToSectors(a.length) <= b.start || b.start + BytesToSectors(b.length) <= a.start
  }

  /** A write leaves alone every sector outside the inode's extent, so every other inode's data,
      and the rest of its own last sector. */
  lemma WriteLeavesOthers(was: seq<Sector>, now: seq<Sector>, inode: Inode, offset: nat, bytes: seq<byte>, other: Inode)
    requires OnDevice(was, inode) && OnDevice(was, other) && offset + |bytes| <= inode.length
    requires Stored(was, now, Address(inode, offset), bytes)
    ensures OnDevice(now, other)
    ensures Apart(inode, other) ==> Data(now, other) == Data(was, other)
    ensures forall a :: Address(inode, inode.length) <= a && a / SECTOR_SIZE < |was| ==> At(now, a) == At(was, a)
  {
    if Apart(inode, other) {
      var d, e := Data(was, other), Data(now, other);
      forall i | 0 <= i < other.length
        ensures e[i] == d[i]
      {
        assert e[i] == At(now, Address(other, i)) && d[i] == At(was, Address(other, i));
      }
    }
  }
}
