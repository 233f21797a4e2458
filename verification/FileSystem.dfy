/** Sector ownership in the file system: the states the free map, the open inodes and the root
    directory can be in, and why every operation keeps them consistent. */
module FileSystemState {
  import opened Basics
  import opened Bits
  import InodeIO

  const FREE_MAP_SECTOR: nat := 0
  const ROOT_DIR_SECTOR: nat := 1

  datatype DiskInode = DiskInode(start: nat, length: nat)
  datatype OpenInode = OpenInode(openCnt: nat, removed: bool, data: DiskInode)
  datatype DirEntry = DirEntry(sector: nat, name: string, inUse: bool)

  /** marked: the free map; inodes: what is written at inode sectors; open: the open_inodes list,
      by sector; root: the slots of the root directory. */
  datatype State = State(marked: seq<bool>, inodes: map<nat, DiskInode>, open: map<nat, OpenInode>, root: seq<DirEntry>)

  predicate InExtent(d: DiskInode, x: nat) {
    d.start <= x < d.start + InodeIO.BytesToSectors(d.length)
  }

  ghost predicate Named(root: seq<DirEntry>, s: nat) {
    exists i :: 0 <= i < |root| && root[i].inUse && root[i].sector == s
  }

  /** Inodes whose sectors must not be reused: the system's two, the named ones and the open ones. */
  ghost predicate Owned(st: State, s: nat) {
    s == FREE_MAP_SECTOR || s == ROOT_DIR_SECTOR || Named(st.root, s) || s in st.open
  }

  /** An owned inode has its own sector and its data extent marked in the free map. */
  ghost predicate Marked(st: State, s: nat) {
    && s in st.inodes && s < |st.marked| && st.marked[s]
    && All(st.marked, st.inodes[s].start, InodeIO.BytesToSectors(st.inodes[s].length), true)
  }

  /** No sector has two uses. */
  ghost predicate Separate(st: State, s: nat, t: nat)
    requires s in st.inodes && t in st.inodes
  {
    && !InExtent(st.inodes[s], t)
    && (s != t ==> forall x :: InExtent(st.inodes[s], x) ==> !InExtent(st.inodes[t], x))
  }

  /** No inode has two entries; names may repeat. */
  ghost predicate DirectoryOk(root: seq<DirEntry>) {
    && (forall i :: 0 <= i < |root| && root[i].inUse ==> root[i].sector > ROOT_DIR_SECTOR)
    && (forall i, j :: 0 <= i < j < |root| && root[i].inUse && root[j].inUse ==> root[i].sector != root[j].sector)
  }

  /** An open inode caches what is on disk; one marked removed has no name. */
  ghost predicate OpenOk(st: State, s: nat)
    requires s in st.open
  {
    && s in st.inodes && st.open[s].data == st.inodes[s]
    && st.open[s].openCnt >= 1
    && (st.open[s].removed ==> s > ROOT_DIR_SECTOR && !Named(st.root, s))
  }

  ghost predicate Inv(st: State) {
    && (forall s :: Owned(st, s) ==> Marked(st, s))
    && (forall s, t :: Owned(st, s) && Owned(st, t) ==> Separate(st, s, t))
    && DirectoryOk(st.root)
    && (forall s | s in st.open :: OpenOk(st, s))
  }

  // ----- What the primitive steps do to a state -----

  /** free_map_allocate: a group of free sectors becomes marked. */
  ghost function Allocated(st: State, sector: nat, cnt: nat): State
    requires sector + cnt <= |st.marked|
  {
    st.(marked := SetRange(st.marked, sector, cnt, true))
  }

  /** free_map_release. */
  ghost function Released(st: State, sector: nat, cnt: nat): State
    requires sector + cnt <= |st.marked|
  {
    st.(marked := SetRange(st.marked, sector, cnt, false))
  }

  lemma AllocateKeepsInv(st: State, sector: nat, cnt: nat)
    requires Inv(st) && sector + cnt <= |st.marked|
    ensures Inv(Allocated(st, sector, cnt))
  {
    var n := Allocated(st, sector, cnt);
    forall s | Owned(n, s)
      ensures Marked(n, s)
    {
      assert Owned(st, s);
    }
    forall s, t | Owned(n, s) && Owned(n, t)
      ensures Separate(n, s, t)
    {
      assert Owned(st, s) && Owned(st, t);
      assert Separate(st, s, t);
    }
    forall s | s in n.open
      ensures OpenOk(n, s)
    {
      assert OpenOk(st, s);
    }
  }

  /** A group of sectors that no owned inode uses. */
  ghost predicate Unused(st: State, sector: nat, cnt: nat) {
    forall s: nat :: Owned(st, s) ==>
      && !(sector <= s < sector + cnt)
      && s in st.inodes
      && (forall x: nat :: sector <= x < sector + cnt ==> !InExtent(st.inodes[s], x))
  }

  /** Free sectors are unused. */
  lemma FreeIsUnused(st: State, sector: nat, cnt: nat)
    requires Inv(st) && All(st.marked, sector, cnt, false)
    ensures Unused(st, sector, cnt)
  {
    forall s: nat | Owned(st, s)
      ensures !(sector <= s < sector + cnt) && s in st.inodes
      ensures forall x: nat :: sector <= x < sector + cnt ==> !InExtent(st.inodes[s], x)
    {
      assert Marked(st, s);
      forall x: nat | sector <= x < sector + cnt
        ensures !InExtent(st.inodes[s], x)
      {
        assert !st.marked[x];
      }
    }
  }

  lemma ReleaseKeepsInv(st: State, sector: nat, cnt: nat)
    requires Inv(st) && sector + cnt <= |st.marked| && Unused(st, sector, cnt)
    ensures Inv(Released(st, sector, cnt))
  {
    var n := Released(st, sector, cnt);
    forall s | Owned(n, s)
      ensures Marked(n, s)
    {
      assert Owned(st, s);
      assert Marked(st, s);
      var d := st.inodes[s];
      forall x: nat | d.start <= x < d.start + InodeIO.BytesToSectors(d.length)
        ensures n.marked[x]
      {
        assert InExtent(d, x);
      }
    }
    forall s, t | Owned(n, s) && Owned(n, t)
      ensures Separate(n, s, t)
    {
      assert Owned(st, s) && Owned(st, t);
      assert Separate(st, s, t);
    }
    forall s | s in n.open
      ensures OpenOk(n, s)
    {
      assert OpenOk(st, s);
    }
  }

  /** A fresh inode sector s and a fresh extent get a name, in a slot that may hold another. */
  lemma CreateKeepsInv(st: State, s: nat, d: DiskInode, k: nat, name: string)
    requires Inv(st) && k < |st.root| && s > ROOT_DIR_SECTOR
    requires Unused(st, s, 1) && s < |st.marked| && st.marked[s]
    requires Unused(st, d.start, InodeIO.BytesToSectors(d.length))
    requires All(st.marked, d.start, InodeIO.BytesToSectors(d.length), true)
    requires !InExtent(d, s)
    ensures Inv(st.(inodes := st.inodes[s := d], root := st.root[k := DirEntry(s, name, true)]))
  {
    var n := st.(inodes := st.inodes[s := d], root := st.root[k := DirEntry(s, name, true)]);
    NamedAfterAdd(st.root, k, s, name);
    forall t: nat | Owned(n, t)
      ensures t == s || Owned(st, t)
      ensures Marked(n, t)
    {
      if t != s {
        assert Owned(st, t);
        assert Marked(st, t);
      }
    }
    assert !Owned(st, s);
    forall t, u | Owned(n, t) && Owned(n, u)
      ensures Separate(n, t, u)
    {
      if t != s && u != s {
        assert Separate(st, t, u);
      }
    }
    forall i | 0 <= i < |st.root| && st.root[i].inUse
      ensures st.root[i].sector != s
    {
      assert Named(st.root, st.root[i].sector);
    }
    forall t | t in n.open
      ensures OpenOk(n, t)
    {
      assert OpenOk(st, t);
      assert Owned(st, t);
    }
  }

  lemma NamedAfterAdd(root: seq<DirEntry>, k: nat, s: nat, name: string)
    requires k < |root| && DirectoryOk(root)
    ensures forall t :: Named(root[k := DirEntry(s, name, true)], t) <==>
      t == s || (Named(root, t) && !(root[k].inUse && root[k].sector == t))
  {
    var r := root[k := DirEntry(s, name, true)];
    forall t
      ensures Named(r, t) <==> t == s || (Named(root, t) && !(root[k].inUse && root[k].sector == t))
    {
      assert r[k].inUse && r[k].sector == s;
      if Named(root, t) && !(root[k].inUse && root[k].sector == t) {
        var i :| 0 <= i < |root| && root[i].inUse && root[i].sector == t;
        assert r[i] == root[i];
      }
    }
  }

  lemma NamedAfterErase(root: seq<DirEntry>, k: nat)
    requires k < |root| && root[k].inUse && DirectoryOk(root)
    ensures forall t :: Named(root[k := root[k].(inUse := false)], t) <==> t != root[k].sector && Named(root, t)
  {
    var r := root[k := root[k].(inUse := false)];
    forall t
      ensures Named(r, t) <==> t != root[k].sector && Named(root, t)
    {
      if t != root[k].sector && Named(root, t) {
        var i :| 0 <= i < |root| && root[i].inUse && root[i].sector == t;
        assert r[i] == root[i];
      }
    }
  }

  /** One more opener of the inode at sector s, which reads as raw. */
  function OpenedAs(open: map<nat, OpenInode>, s: nat, raw: DiskInode): map<nat, OpenInode> {
    open[s := if s in open then open[s].(openCnt := open[s].openCnt + 1) else OpenInode(1, false, raw)]
  }

  /** inode_open or inode_reopen. */
  ghost function Opened(st: State, s: nat): State
    requires s in st.inodes
  {
    st.(open := OpenedAs(st.open, s, st.inodes[s]))
  }

  lemma OpenKeepsInv(st: State, s: nat)
    requires Inv(st) && Owned(st, s)
    ensures s in st.inodes && Inv(Opened(st, s))
  {
    assert Marked(st, s);
    var n := Opened(st, s);
    assert forall t :: Owned(n, t) ==> Owned(st, t);
    forall t | Owned(n, t)
      ensures Marked(n, t)
    {
      assert Marked(st, t);
    }
    forall t, u | Owned(n, t) && Owned(n, u)
      ensures Separate(n, t, u)
    {
      assert Separate(st, t, u);
    }
    forall t | t in n.open
      ensures OpenOk(n, t)
    {
      if t in st.open {
        assert OpenOk(st, t);
      }
    }
  }

  /** inode_close before any release of sectors: one opener fewer, the last one leaves the list. */
  ghost function Closed(st: State, s: nat): State
    requires s in st.open
  {
    if st.open[s].openCnt > 1 then st.(open := st.open[s := st.open[s].(openCnt := st.open[s].openCnt - 1)])
    else st.(open := st.open - {s})
  }

  /** After the last close of a removed inode nothing owns its sectors. */
  lemma CloseKeepsInv(st: State, s: nat)
    requires Inv(st) && s in st.open
    ensures Inv(Closed(st, s))
    ensures OpenOk(st, s) && Marked(st, s)
    ensures st.open[s].openCnt == 1 && st.open[s].removed ==>
      && !Owned(Closed(st, s), s)
      && Unused(Closed(st, s), s, 1)
      && Unused(Closed(st, s), st.inodes[s].start, InodeIO.BytesToSectors(st.inodes[s].length))
  {
    var n := Closed(st, s);
    assert OpenOk(st, s);
    assert Owned(st, s);
    forall t | Owned(n, t)
      ensures Owned(st, t) && Marked(n, t)
    {
      assert Owned(st, t);
      assert Marked(st, t);
    }
    forall t, u | Owned(n, t) && Owned(n, u)
      ensures Separate(n, t, u)
    {
      assert Separate(st, t, u);
    }
    forall t | t in n.open
      ensures OpenOk(n, t)
    {
      assert OpenOk(st, t);
    }
    if st.open[s].openCnt == 1 && st.open[s].removed {
      forall t: nat | Owned(n, t)
        ensures t != s && t in st.inodes && Separate(st, s, t) && Separate(st, t, s)
      {
        assert Owned(st, t);
        assert Marked(st, t);
      }
    }
  }

  /** The last close of a removed inode. */
  predicate LastOfRemoved(st: State, s: nat)
    requires s in st.open
  {
    st.open[s].openCnt == 1 && st.open[s].removed
  }

  /** Sector x is the inode's own or holds its data. */
  predicate Uses(s: nat, d: DiskInode, x: nat) { x == s || InExtent(d, x) }

  /** inode_close: the sectors of a removed inode are released exactly at its last close. */
  ghost predicate AfterClose(st: State, s: nat, n: State)
    requires s in st.open
  {
    && n.open == Closed(st, s).open && n.inodes == st.inodes && n.root == st.root && |n.marked| == |st.marked|
    && forall x: nat :: x < |st.marked| ==>
         n.marked[x] == (st.marked[x] && !(LastOfRemoved(st, s) && Uses(s, st.open[s].data, x)))
  }

  /** The two releases of inode_close. */
  ghost function Freed(st: State, s: nat, d: DiskInode): State
    requires s < |st.marked| && d.start + InodeIO.BytesToSectors(d.length) <= |st.marked|
  {
    Released(Released(st, s, 1), d.start, InodeIO.BytesToSectors(d.length))
  }

  lemma FreedKeepsInv(st: State, s: nat)
    requires Inv(st) && s in st.open && LastOfRemoved(st, s)
    ensures Marked(st, s) && st.open[s].data == st.inodes[s] && !InExtent(st.inodes[s], s)
    ensures Inv(Freed(Closed(st, s), s, st.inodes[s])) && AfterClose(st, s, Freed(Closed(st, s), s, st.inodes[s]))
  {
    CloseKeepsInv(st, s);
    assert Owned(st, s);
    assert Separate(st, s, s);
    var d, c := st.inodes[s], Closed(st, s);
    hide Inv, Owned;
    ReleaseKeepsInv(c, s, 1);
    UnusedAfterRelease(c, s, 1, d.start, InodeIO.BytesToSectors(d.length));
    hide Unused;
    ReleaseKeepsInv(Released(c, s, 1), d.start, InodeIO.BytesToSectors(d.length));
  }

  lemma UnusedAfterRelease(st: State, a: nat, m: nat, b: nat, n: nat)
    requires a + m <= |st.marked| && Unused(st, b, n)
    ensures Unused(Released(st, a, m), b, n)
  {
  }

  /** dir_remove: the name goes, the open inode is marked removed. */
  ghost function Erased(st: State, k: nat): State
    requires k < |st.root| && st.root[k].sector in st.open
  {
    var s := st.root[k].sector;
    st.(root := st.root[k := st.root[k].(inUse := false)], open := st.open[s := st.open[s].(removed := true)])
  }

  lemma EraseKeepsInv(st: State, k: nat)
    requires Inv(st) && k < |st.root| && st.root[k].inUse && st.root[k].sector in st.open
    ensures Inv(Erased(st, k))
  {
    var n, s := Erased(st, k), st.root[k].sector;
    NamedAfterErase(st.root, k);
    forall t | Owned(n, t)
      ensures Owned(st, t) && Marked(n, t)
    {
      assert Owned(st, t);
      assert Marked(st, t);
    }
    forall t, u | Owned(n, t) && Owned(n, u)
      ensures Separate(n, t, u)
    {
      assert Separate(st, t, u);
    }
    forall t | t in n.open
      ensures OpenOk(n, t)
    {
      assert OpenOk(st, t);
    }
  }

  // ----- What ownership is for -----

  ghost function DataOf(st: State, s: nat): InodeIO.Inode
    requires s in st.inodes
  {
    InodeIO.Inode(st.inodes[s].start, st.inodes[s].length, 0)
  }

  lemma OwnedOnDevice(st: State, disk: seq<InodeIO.Sector>, s: nat)
    requires Inv(st) && |disk| == |st.marked| && Owned(st, s)
    ensures s in st.inodes && s < |disk| && InodeIO.OnDevice(disk, DataOf(st, s))
  {
    assert Marked(st, s);
  }

  /** In every consistent state, writing to one owned inode changes no other owned inode's data and
      no owned inode sector. */
  lemma WritesAreIsolated(st: State, was: seq<InodeIO.Sector>, now: seq<InodeIO.Sector>, s: nat, t: nat, offset: nat,
                          bytes: seq<byte>)
    requires Inv(st) && |was| == |st.marked| && Owned(st, s) && Owned(st, t)
    requires s in st.inodes && t in st.inodes && offset + |bytes| <= st.inodes[s].length
    requires InodeIO.Stored(was, now, InodeIO.Address(DataOf(st, s), offset), bytes)
    ensures t < |now| == |was| && now[t] == was[t]
    ensures InodeIO.OnDevice(was, DataOf(st, t)) && InodeIO.OnDevice(now, DataOf(st, t))
    ensures s != t ==> InodeIO.Data(now, DataOf(st, t)) == InodeIO.Data(was, DataOf(st, t))
  {
    OwnedOnDevice(st, was, t);
    assert Separate(st, s, t);
    var a := InodeIO.Address(DataOf(st, s), offset);
    forall x: nat | a <= x < a + |bytes|
      ensures InExtent(st.inodes[s], x / InodeIO.SECTOR_SIZE)
    {
    }
    forall i | 0 <= i < InodeIO.SECTOR_SIZE
      ensures now[t][i] == was[t][i]
    {
      var x := t * InodeIO.SECTOR_SIZE + i;
      assert InodeIO.At(now, x) == now[t][i] && InodeIO.At(was, x) == was[t][i];
    }
    if s != t {
      var d, e := InodeIO.Data(was, DataOf(st, t)), InodeIO.Data(now, DataOf(st, t));
      forall i | 0 <= i < |d|
        ensures e[i] == d[i]
      {
        var x := InodeIO.Address(DataOf(st, t), i);
        assert InExtent(st.inodes[t], x / InodeIO.SECTOR_SIZE);
        assert e[i] == InodeIO.At(now, x) && d[i] == InodeIO.At(was, x);
      }
    }
  }
}

/** What each call does to a state, with every memory allocation and free map write that can fail, and what
    whole sequences of calls keep. */
module FileSystemSteps {
  import opened Basics
  import opened Bits
  import opened FileSystemState
  import InodeIO

  const NAME_MAX: nat := 14

  /** What can go wrong: memory for the root inode, the directory handle, an inode, a file handle; the two
      writes of the free map; and the bounce buffers of the directory's inode, with which lookup reads
      lookupReads entries before it fails, the scan for a free slot scanReads, and the entry is written. */
  datatype Faults = Faults(rootMem: bool, dirMem: bool, inodeMem: bool, fileMem: bool, write1: bool, write2: bool,
                           lookupReads: nat, scanReads: nat, entryWrite: bool)

  // ----- The directory -----

  /** The first in-use entry with that name, among the first `seen` ones. */
  function Find(root: seq<DirEntry>, name: string, seen: nat): (r: Option<nat>)
    ensures IsFound(root, name, seen, r)
  {
    FindFrom(root, name, seen, 0)
  }

  function FindFrom(root: seq<DirEntry>, name: string, seen: nat, i: nat): (r: Option<nat>)
    requires i <= |root|
    ensures (forall j :: 0 <= j < i ==> !Has(root[j], name)) ==> IsFound(root, name, seen, r)
    decreases |root| - i
  {
    if i == |root| || i >= seen then None
    else if Has(root[i], name) then Some(i)
    else FindFrom(root, name, seen, i + 1)
  }

  predicate Has(e: DirEntry, name: string) { e.inUse && e.name == name }

  ghost predicate IsFound(root: seq<DirEntry>, name: string, seen: nat, r: Option<nat>) {
    match r
    case Some(k) => k < |root| && k < seen && Has(root[k], name) && forall j :: 0 <= j < k ==> !Has(root[j], name)
    case None => forall j :: 0 <= j < |root| && j < seen ==> !Has(root[j], name)
  }

  /** Where dir_add writes: the first slot that is free or cannot be read, or the end of the directory. */
  function Slot(root: seq<DirEntry>, seen: nat): (k: nat)
    ensures IsSlot(root, seen, k)
  {
    SlotFrom(root, seen, 0)
  }

  function SlotFrom(root: seq<DirEntry>, seen: nat, i: nat): (k: nat)
    requires i <= |root|
    ensures i <= seen && (forall j :: 0 <= j < i ==> root[j].inUse) ==> IsSlot(root, seen, k)
    decreases |root| - i
  {
    if i < |root| && i < seen && root[i].inUse then SlotFrom(root, seen, i + 1) else i
  }

  ghost predicate IsSlot(root: seq<DirEntry>, seen: nat, k: nat) {
    && k <= |root| && k <= seen && (forall j :: 0 <= j < k ==> root[j].inUse)
    && (k == |root| || k == seen || !root[k].inUse)
  }

  /** dir_add accepts a name of 1 to 14 characters that its lookup does not meet, if it can write a slot. */
  predicate CanAdd(root: seq<DirEntry>, name: string, f: Faults) {
    && 0 < |name| <= NAME_MAX && Find(root, name, f.lookupReads).None?
    && Slot(root, f.scanReads) < |root| && f.entryWrite
  }

  ghost predicate UniqueNames(root: seq<DirEntry>) {
    forall i, j :: 0 <= i < j < |root| && root[i].inUse && root[j].inUse ==> root[i].name != root[j].name
  }

  /** An entry that lookup did not get to has the name, and is not about to be overwritten. */
  ghost predicate Hidden(root: seq<DirEntry>, name: string, f: Faults) {
    exists i :: f.lookupReads <= i < |root| && i != Slot(root, f.scanReads) && Has(root[i], name)
  }

  /** dir_add keeps names unique if and only if its lookup saw every other entry with the name. */
  lemma AddKeepsNames(root: seq<DirEntry>, name: string, f: Faults, s: nat)
    requires UniqueNames(root) && CanAdd(root, name, f)
    ensures UniqueNames(root[Slot(root, f.scanReads) := DirEntry(s, name, true)]) <==> !Hidden(root, name, f)
  {
    var k := Slot(root, f.scanReads);
    var r := root[k := DirEntry(s, name, true)];
    if Hidden(root, name, f) {
      var i :| f.lookupReads <= i < |root| && i != k && Has(root[i], name);
      assert r[i].inUse && r[k].inUse && r[i].name == r[k].name;
    } else {
      forall i, j | 0 <= i < j < |r| && r[i].inUse && r[j].inUse
        ensures r[i].name != r[j].name
      {
        var other := if i == k then j else i;
        assert i == k || j == k ==> !Has(root[other], name);
      }
    }
  }

  /** dir_add overwrites an entry in use if and only if its scan fails before it meets a free slot. */
  lemma AddOverwrites(root: seq<DirEntry>, f: Faults)
    requires Slot(root, f.scanReads) < |root|
    ensures root[Slot(root, f.scanReads)].inUse <==>
      f.scanReads < |root| && forall j :: 0 <= j <= f.scanReads ==> root[j].inUse
  {
  }

  /** dir_add loses a name if and only if it overwrites an entry in use. */
  lemma AddLoses(root: seq<DirEntry>, name: string, f: Faults, s: nat)
    requires DirectoryOk(root) && Slot(root, f.scanReads) < |root| && !Named(root, s)
    ensures var k := Slot(root, f.scanReads);
      (forall t :: Named(root, t) ==> Named(root[k := DirEntry(s, name, true)], t)) <==> !root[k].inUse
  {
    var k := Slot(root, f.scanReads);
    NamedAfterAdd(root, k, s, name);
    if root[k].inUse {
      assert Named(root, root[k].sector);
    }
  }

  // ----- The free map -----

  /** Exactly the first k sectors are marked. */
  ghost predicate FilledTo(b: seq<bool>, k: nat) {
    k <= |b| && forall i :: 0 <= i < |b| ==> (b[i] <==> i < k)
  }

  /** Where the lowest group of cnt free sectors starts. */
  ghost function FirstGroup(b: seq<bool>, cnt: nat): Option<nat> { FirstFrom(b, cnt, 0) }

  ghost function FirstFrom(b: seq<bool>, cnt: nat, i: nat): Option<nat>
    decreases |b| - i
  {
    if i + cnt > |b| then None else if All(b, i, cnt, false) then Some(i)
    else if i == |b| then None else FirstFrom(b, cnt, i + 1)
  }

  lemma {:induction false} FirstFromIs(b: seq<bool>, cnt: nat, r: Option<nat>, i: nat)
    requires IsFirstGroup(b, i, cnt, false, r) && i <= |b|
    ensures r == FirstFrom(b, cnt, i)
    decreases |b| - i
  {
    if i + cnt <= |b| && !All(b, i, cnt, false) && i < |b| {
      FirstFromIs(b, cnt, r, i + 1);
    }
  }

  lemma FirstGroupIs(b: seq<bool>, cnt: nat, r: Option<nat>)
    requires IsFirstGroup(b, 0, cnt, false, r)
    ensures r == FirstGroup(b, cnt)
  {
    FirstFromIs(b, cnt, r, 0);
  }

  lemma {:induction false} FirstIsGroup(b: seq<bool>, cnt: nat, i: nat)
    ensures var r := FirstFrom(b, cnt, i); r.Some? ==> All(b, r.value, cnt, false)
    decreases |b| - i
  {
    if i + cnt <= |b| && !All(b, i, cnt, false) && i < |b| {
      FirstIsGroup(b, cnt, i + 1);
    }
  }

  // ----- The calls -----

  predicate RootOpens(st: State, f: Faults) { (ROOT_DIR_SECTOR in st.open || f.rootMem) && f.dirMem }

  /** inode_create at sector s succeeding: the lowest free group becomes its extent. */
  ghost function WithInode(st: State, s: nat, length: nat): State
    requires FirstGroup(st.marked, InodeIO.BytesToSectors(length)).Some?
  {
    var cnt := InodeIO.BytesToSectors(length);
    var e := FirstGroup(st.marked, cnt).value;
    FirstIsGroup(st.marked, cnt, 0);
    Allocated(st, e, cnt).(inodes := st.inodes[s := DiskInode(e, length)])
  }

  /** The lowest free sector is taken for the inode. */
  ghost function WithSector(st: State): State
    requires FirstGroup(st.marked, 1).Some?
  {
    FirstIsGroup(st.marked, 1, 0);
    Allocated(st, FirstGroup(st.marked, 1).value, 1)
  }

  /** filesys_create gets as far as dir_add. */
  ghost predicate Reserves(st: State, size: nat, f: Faults) {
    && RootOpens(st, f) && f.write1 && FirstGroup(st.marked, 1).Some?
    && f.inodeMem && f.write2 && FirstGroup(WithSector(st).marked, InodeIO.BytesToSectors(size)).Some?
  }

  ghost predicate CanCreate(st: State, name: string, size: nat, f: Faults) {
    Reserves(st, size, f) && CanAdd(st.root, name, f)
  }

  /** filesys_create.  When dir_add fails, the inode's sector is released and its extent is not. */
  ghost function Created(st: State, name: string, size: nat, f: Faults): State {
    if !Reserves(st, size, f) then st else
      var s := FirstGroup(st.marked, 1).value;
      var w := WithInode(WithSector(st), s, size);
      if CanAdd(st.root, name, f) then w.(root := st.root[Slot(st.root, f.scanReads) := DirEntry(s, name, true)])
      else
        FirstIsGroup(st.marked, 1, 0);
        Released(w, s, 1)
  }

  /** The inode filesys_open opens. */
  function OpenTarget(st: State, name: string, f: Faults): Option<nat> {
    var k := Find(st.root, name, f.lookupReads);
    if RootOpens(st, f) && k.Some? && (st.root[k.value].sector in st.open || f.inodeMem) && f.fileMem
    then Some(st.root[k.value].sector) else None
  }

  /** The slot dir_remove erases. */
  function Target(st: State, name: string, f: Faults): Option<nat> {
    var k := Find(st.root, name, f.lookupReads);
    if k.Some? && (st.root[k.value].sector in st.open || f.inodeMem) && f.entryWrite then k else None
  }

  /** From st the entry in slot k has been removed: its inode's sectors are freed at once if nobody has it
      open, and otherwise stay. */
  ghost predicate Removed(st: State, n: State, k: nat) {
    && k < |st.root| && st.root[k].inUse
    && n.root == st.root[k := st.root[k].(inUse := false)]
    && n.inodes == st.inodes && |n.marked| == |st.marked|
    && var s := st.root[k].sector;
    && s in st.inodes
    && (if s in st.open then n.open == st.open[s := st.open[s].(removed := true)] else n.open == st.open)
    && (forall x: nat :: x < |st.marked| ==>
          n.marked[x] == (st.marked[x] && (s in st.open || !Uses(s, st.inodes[s], x))))
  }

  datatype Op =
    | CreateOp(name: string, size: nat)
    | OpenOp(name: string)
    | CloseOp(sector: nat)
    | RemoveOp(name: string)

  datatype Answer = Done(ok: bool) | Handle(inode: Option<nat>)

  /** One call, its faults, its answer and the state after it. */
  ghost predicate Next(st: State, op: Op, f: Faults, r: Answer, n: State) {
    match op
    case CreateOp(name, size) => r == Done(CanCreate(st, name, size, f)) && n == Created(st, name, size, f)
    case OpenOp(name) =>
      var t := OpenTarget(st, name, f);
      r == Handle(t) && if t.Some? then t.value in st.inodes && n == Opened(st, t.value) else n == st
    case CloseOp(s) => r == Done(s in st.open) && if s in st.open then AfterClose(st, s, n) else n == st
    case RemoveOp(name) =>
      var k := Target(st, name, f);
      r == Done(RootOpens(st, f) && k.Some?) && if RootOpens(st, f) && k.Some? then Removed(st, n, k.value) else n == st
  }

  ghost predicate IsTrace(states: seq<State>, ops: seq<(Op, Faults)>, answers: seq<Answer>) {
    && |states| == |ops| + 1 == |answers| + 1
    && (forall i :: 0 <= i < |states| ==> Inv(states[i]))
    && (forall i :: 0 <= i < |ops| ==> Next(states[i], ops[i].0, ops[i].1, answers[i], states[i + 1]))
  }

  // ----- What each call answers and does, in its own words -----

  /** The root directory's inode is open or there is memory for it, and there is memory for the handle. */
  predicate RootHandle(st: State, f: Faults) { (ROOT_DIR_SECTOR in st.open || f.rootMem) && f.dirMem }

  /** Slot k is the first of those read that is in use under the name. */
  ghost predicate FirstNamed(root: seq<DirEntry>, name: string, seen: nat, k: nat) {
    && k < |root| && k < seen && root[k].inUse && root[k].name == name
    && forall j :: 0 <= j < k ==> !(root[j].inUse && root[j].name == name)
  }

  lemma FirstNamedIs(root: seq<DirEntry>, name: string, seen: nat, k: nat)
    ensures FirstNamed(root, name, seen, k) <==> Find(root, name, seen) == Some(k)
  {
    var r := Find(root, name, seen);
    hide Find, FindFrom;
    if FirstNamed(root, name, seen, k) {
      assert Has(root[k], name);
      assert r.Some?;
      assert !(k < r.value) && !(r.value < k);
    }
  }

  /** The inode of slot k can be had: it is open, or there is memory. */
  predicate InodeToBeHad(st: State, k: nat, f: Faults)
    requires k < |st.root|
  {
    st.root[k].sector in st.open || f.inodeMem
  }

  /** filesys_remove succeeds if and only if the root opens, an entry that can be read has the name, the first one's
      inode can be had and the entry can be written. Then that entry is erased, and its inode, if open, is marked
      removed and keeps its openers. */
  lemma RemoveEffect(st: State, name: string, f: Faults, r: Answer, n: State)
    requires Next(st, RemoveOp(name), f, r, n)
    ensures r == Done(true) || (r == Done(false) && n == st)
    ensures r == Done(true) <==> RootHandle(st, f) && Erasable(st, name, f)
    ensures r == Done(true) ==> exists k: nat :: FirstNamed(st.root, name, f.lookupReads, k) && ErasedAt(st, n, k)
  {
    TargetIs(st, name, f);
    hide Target, FirstNamed;
  }

  /** The first entry with the name, of those that can be read, can be written and its inode be had. */
  ghost predicate Erasable(st: State, name: string, f: Faults) {
    f.entryWrite && exists k: nat :: FirstNamed(st.root, name, f.lookupReads, k) && InodeToBeHad(st, k, f)
  }

  lemma TargetIs(st: State, name: string, f: Faults)
    ensures var t := Target(st, name, f);
      (t.Some? <==> Erasable(st, name, f)) && (t.Some? ==> FirstNamed(st.root, name, f.lookupReads, t.value))
  {
    var t := Find(st.root, name, f.lookupReads);
    if t.Some? {
      FirstNamedIs(st.root, name, f.lookupReads, t.value);
    }
    forall k: nat | FirstNamed(st.root, name, f.lookupReads, k)
      ensures t == Some(k)
    {
      FirstNamedIs(st.root, name, f.lookupReads, k);
    }
    hide Find, FirstNamed;
  }

  /** The entry in slot k is not in use any more; its inode is marked removed if open, and freed at once if not. */
  ghost predicate ErasedAt(st: State, n: State, k: nat)
    requires k < |st.root|
  {
    var s := st.root[k].sector;
    && n.root == st.root[k := DirEntry(s, st.root[k].name, false)] && n.inodes == st.inodes && s in st.inodes
    && if s in st.open then
         n.marked == st.marked && n.open == st.open[s := OpenInode(st.open[s].openCnt, true, st.open[s].data)]
       else n.open == st.open && Unmarks(st, n, s)
  }

  /** filesys_open succeeds if and only if the root opens, an entry that can be read has the name, the first one's inode
      can be had and there is memory for the handle. That inode, and only it, then has one more opener. */
  lemma OpenEffect(st: State, name: string, f: Faults, r: Answer, n: State)
    requires Next(st, OpenOp(name), f, r, n)
    ensures r.Handle? && (r.inode.None? ==> n == st)
    ensures r.inode.Some? <==>
      && RootHandle(st, f) && f.fileMem
      && exists k: nat :: FirstNamed(st.root, name, f.lookupReads, k) && InodeToBeHad(st, k, f)
    ensures r.inode.Some? ==>
      exists k: nat :: FirstNamed(st.root, name, f.lookupReads, k) && r.inode.value == st.root[k].sector
    ensures r.inode.Some? ==> n == st.(open := n.open) && r.inode.value in st.inodes
    ensures r.inode.Some? ==> var s := r.inode.value;
      n.open == st.open[s := if s in st.open then st.open[s].(openCnt := st.open[s].openCnt + 1)
                             else OpenInode(1, false, st.inodes[s])]
  {
    var t := Find(st.root, name, f.lookupReads);
    if t.Some? {
      FirstNamedIs(st.root, name, f.lookupReads, t.value);
    }
    forall k: nat | FirstNamed(st.root, name, f.lookupReads, k)
      ensures t == Some(k)
    {
      FirstNamedIs(st.root, name, f.lookupReads, k);
    }
    hide Find, FirstNamed;
  }

  /** inode_close takes one opener away; the last one closes the inode. */
  lemma CloseEffect(st: State, s: nat, f: Faults, r: Answer, n: State)
    requires Inv(st) && Next(st, CloseOp(s), f, r, n)
    ensures r == Done(s in st.open) && n.inodes == st.inodes && n.root == st.root
    ensures s !in st.open ==> n == st
    ensures s in st.open && st.open[s].openCnt > 1 ==>
      n == st.(open := st.open[s := st.open[s].(openCnt := st.open[s].openCnt - 1)])
    ensures s in st.open && st.open[s].openCnt <= 1 ==> n.open == st.open - {s}
    ensures s in st.open && st.open[s].openCnt == 1 && !st.open[s].removed ==> n.marked == st.marked
    ensures s in st.open && st.open[s].openCnt == 1 && st.open[s].removed ==> s in st.inodes && Unmarks(st, n, s)
  {
    if s in st.open {
      CachedInode(st, s);
    }
    hide Inv;
  }

  /** Exactly the sectors of inode s have been freed. */
  ghost predicate Unmarks(st: State, n: State, s: nat)
    requires s in st.inodes
  {
    && |n.marked| == |st.marked|
    && forall x: nat :: x < |st.marked| ==> (n.marked[x] <==> st.marked[x] && x != s && !InExtent(st.inodes[s], x))
  }

  /** filesys_create succeeds if and only if everything it needs is there: the root handle, a free sector, memory, a
      free group of sectors besides, the writes of the free map, and a name and slot that dir_add takes. Then a new
      inode of that size, on sectors that were free, is in that slot under that name, and no open inode is touched. If
      only the name cannot be added, the inode's sector is free again and its extent stays marked. */
  lemma CreateEffect(st: State, name: string, size: nat, f: Faults, r: Answer, n: State)
    requires Next(st, CreateOp(name, size), f, r, n)
    ensures r == Done(true) || r == Done(false)
    ensures n.open == st.open
    ensures r == Done(true) <==>
      && MakesInode(st, size, f) && f.entryWrite && 0 < |name| <= 14
      && (forall i :: 0 <= i < |st.root| && i < f.lookupReads ==> !(st.root[i].inUse && st.root[i].name == name))
      && (exists k: nat :: k < |st.root| && IsSlot(st.root, f.scanReads, k))
    ensures !MakesInode(st, size, f) ==> n == st
    ensures MakesInode(st, size, f) && r == Done(false) ==> exists s: nat, e: nat ::
      TakesSectors(st.marked, s, e, InodeIO.BytesToSectors(size)) && LeftAt(st, n, s, e, size)
    ensures r == Done(true) ==> exists s: nat, e: nat, k: nat ::
      IsSlot(st.root, f.scanReads, k) && TakesSectors(st.marked, s, e, InodeIO.BytesToSectors(size)) &&
      CreatedAt(st, n, s, e, k, name, size)
  {
    var cnt := InodeIO.BytesToSectors(size);
    hide InodeIO.BytesToSectors, Find, FindFrom, Slot, SlotFrom, FirstGroup, FirstFrom;
    SlotOnly(st.root, f.scanReads);
    SectorsToTake(st, cnt);
    if CanCreate(st, name, size, f) {
      var s, e := FirstGroup(st.marked, 1).value, FirstGroup(WithSector(st).marked, cnt).value;
      assert CreatedAt(st, n, s, e, Slot(st.root, f.scanReads), name, size);
    } else if Reserves(st, size, f) {
      FirstIsGroup(st.marked, 1, 0);
      var s, e := FirstGroup(st.marked, 1).value, FirstGroup(WithSector(st).marked, cnt).value;
      assert !st.marked[s] && LeftAt(st, n, s, e, size);
    }
  }

  /** filesys_create gets its inode: the root handle, the memory, the free sectors and the writes of the free map. */
  ghost predicate MakesInode(st: State, size: nat, f: Faults) {
    && RootHandle(st, f) && f.write1 && f.inodeMem && f.write2
    && exists s: nat, e: nat :: TakesSectors(st.marked, s, e, InodeIO.BytesToSectors(size))
  }

  /** An inode was written in sector s, which is free again, and its extent from e is left marked. */
  ghost predicate LeftAt(st: State, n: State, s: nat, e: nat, size: nat) {
    && n.root == st.root && n.inodes == st.inodes[s := DiskInode(e, size)] && |n.marked| == |st.marked|
    && forall i :: 0 <= i < |st.marked| ==>
         (n.marked[i] <==> st.marked[i] || e <= i < e + InodeIO.BytesToSectors(size))
  }

  /** A new inode in sector s with its extent from e has the name in slot k. */
  ghost predicate CreatedAt(st: State, n: State, s: nat, e: nat, k: nat, name: string, size: nat) {
    && k < |st.root| && n.root == st.root[k := DirEntry(s, name, true)]
    && n.inodes == st.inodes[s := DiskInode(e, size)] && |n.marked| == |st.marked|
    && forall i :: 0 <= i < |st.marked| ==>
         (n.marked[i] <==> st.marked[i] || i == s || e <= i < e + InodeIO.BytesToSectors(size))
  }

  /** Sector s is the lowest free one, and e starts a group of cnt that are free besides. */
  ghost predicate TakesSectors(b: seq<bool>, s: nat, e: nat, cnt: nat) {
    && s < |b| && !b[s] && (forall i :: 0 <= i < s ==> b[i]) && e + cnt <= |b|
    && forall i :: e <= i < e + cnt ==> !b[i] && i != s
  }

  lemma SlotOnly(root: seq<DirEntry>, seen: nat)
    ensures forall k: nat :: IsSlot(root, seen, k) <==> k == Slot(root, seen)
  {
    var s := Slot(root, seen);
    hide Slot, SlotFrom;
    forall k: nat
      ensures IsSlot(root, seen, k) <==> k == s
    {
      assert s < k || s == k || k < s;
    }
  }

  /** FirstFrom finds a group if there is one. */
  lemma {:induction false} GroupsFirst(b: seq<bool>, cnt: nat, i: nat)
    ensures FirstFrom(b, cnt, i).None? ==> forall j :: i <= j ==> !All(b, j, cnt, false)
    ensures FirstFrom(b, cnt, i).Some? ==>
      i <= FirstFrom(b, cnt, i).value && forall j :: i <= j < FirstFrom(b, cnt, i).value ==> !All(b, j, cnt, false)
    decreases |b| - i
  {
    if i + cnt <= |b| && !All(b, i, cnt, false) && i < |b| {
      GroupsFirst(b, cnt, i + 1);
    }
  }

  lemma SectorsToTake(st: State, cnt: nat)
    ensures FirstGroup(st.marked, 1).Some? && FirstGroup(WithSector(st).marked, cnt).Some? ==>
      TakesSectors(st.marked, FirstGroup(st.marked, 1).value, FirstGroup(WithSector(st).marked, cnt).value, cnt)
    ensures (exists s: nat, e: nat :: TakesSectors(st.marked, s, e, cnt)) ==>
      FirstGroup(st.marked, 1).Some? && FirstGroup(WithSector(st).marked, cnt).Some?
  {
    GroupsFirst(st.marked, 1, 0);
    FirstIsGroup(st.marked, 1, 0);
    hide FirstFrom;
    if FirstGroup(st.marked, 1).Some? {
      var s, b := FirstGroup(st.marked, 1).value, WithSector(st).marked;
      forall i | 0 <= i < s
        ensures st.marked[i]
      {
        assert !All(st.marked, i, 1, false);
      }
      assert !st.marked[s] && |b| == |st.marked|;
      assert forall i :: 0 <= i < |b| ==> (b[i] <==> st.marked[i] || i == s);
      GroupsFirst(b, cnt, 0);
      FirstIsGroup(b, cnt, 0);
      forall t: nat, e: nat | TakesSectors(st.marked, t, e, cnt)
        ensures All(b, e, cnt, false)
      {
        assert !(t < s) && !(s < t);
      }
    } else {
      forall t: nat, e: nat
        ensures !TakesSectors(st.marked, t, e, cnt)
      {
        assert !All(st.marked, t, 1, false);
      }
    }
  }

  // ----- Openers -----

  function Openers(st: State, s: nat): nat { if s in st.open then st.open[s].openCnt else 0 }

  /** How often inode s was opened in [i, j), and how often it was closed. */
  function Opens(answers: seq<Answer>, s: nat, i: nat, j: nat): (c: nat)
    requires i <= j <= |answers|
  {
    if i == j then 0 else Opens(answers, s, i, j - 1) + if answers[j - 1] == Handle(Some(s)) then 1 else 0
  }

  function Closes(ops: seq<(Op, Faults)>, answers: seq<Answer>, s: nat, i: nat, j: nat): (c: nat)
    requires i <= j <= |answers| == |ops|
  {
    if i == j then 0
    else Closes(ops, answers, s, i, j - 1) + if ops[j - 1].0 == CloseOp(s) && answers[j - 1] == Done(true) then 1 else 0
  }

  /** A call changes an inode's openers only by opening or closing it. Of an open inode nothing else changes but that
      it can become removed, which stays and after which it cannot be opened. */
  lemma StepOpeners(st: State, op: Op, f: Faults, r: Answer, n: State, s: nat)
    requires Inv(st) && Next(st, op, f, r, n)
    ensures Openers(n, s) + (if op == CloseOp(s) && r == Done(true) then 1 else 0) ==
      Openers(st, s) + if r == Handle(Some(s)) then 1 else 0
    ensures s in st.open && s in n.open ==> n.open[s].data == st.open[s].data
    ensures s in st.open && s in n.open && st.open[s].removed ==> n.open[s].removed
    ensures s in st.open && st.open[s].removed ==> r != Handle(Some(s))
  {
    match op {
      case CreateOp(name, size) => CreateEffect(st, name, size, f, r, n);
      case OpenOp(name) =>
        OpenEffect(st, name, f, r, n);
        if r == Handle(Some(s)) {
          assert Named(st.root, s);
          assert s in st.open ==> OpenOk(st, s);
        }
      case CloseOp(t) =>
        CloseEffect(st, t, f, r, n);
        assert s in st.open ==> OpenOk(st, s);
      case RemoveOp(name) => RemoveEffect(st, name, f, r, n);
    }
    hide Next, Inv, Named;
  }

  lemma TraceStep(states: seq<State>, ops: seq<(Op, Faults)>, answers: seq<Answer>, i: nat)
    requires IsTrace(states, ops, answers) && i < |ops|
    ensures Inv(states[i]) && Inv(states[i + 1]) && Next(states[i], ops[i].0, ops[i].1, answers[i], states[i + 1])
  {
  }

  lemma TraceLengths(states: seq<State>, ops: seq<(Op, Faults)>, answers: seq<Answer>)
    requires IsTrace(states, ops, answers)
    ensures |states| == |ops| + 1 == |answers| + 1
  {
  }

  lemma Counts(ops: seq<(Op, Faults)>, answers: seq<Answer>, s: nat, i: nat, j: nat)
    requires i <= j <= |answers| == |ops|
    ensures i == j ==> Opens(answers, s, i, j) == Closes(ops, answers, s, i, j) == 0
    ensures i < j ==>
      Opens(answers, s, i, j) - Opens(answers, s, i, j - 1) == if answers[j - 1] == Handle(Some(s)) then 1 else 0
    ensures i < j ==>
      Closes(ops, answers, s, i, j) - Closes(ops, answers, s, i, j - 1) ==
      if ops[j - 1].0 == CloseOp(s) && answers[j - 1] == Done(true) then 1 else 0
  {
  }

  /** Over any run an inode's openers are those it had, and one for every time it was opened, less one for every time it
      was closed. */
  lemma {:induction false} TraceOpeners(states: seq<State>, ops: seq<(Op, Faults)>, answers: seq<Answer>, i: nat,
                                        j: nat, s: nat)
    requires IsTrace(states, ops, answers) && i <= j < |states|
    ensures Openers(states[j], s) + Closes(ops, answers, s, i, j) == Openers(states[i], s) + Opens(answers, s, i, j)
  {
    hide *;
    TraceLengths(states, ops, answers);
    Counts(ops, answers, s, i, j);
    if i < j {
      TraceOpeners(states, ops, answers, i, j - 1, s);
      TraceStep(states, ops, answers, j - 1);
      StepOpeners(states[j - 1], ops[j - 1].0, ops[j - 1].1, answers[j - 1], states[j], s);
    }
  }

  // ----- Removed while open -----

  ghost predicate RemovedOpen(st: State, s: nat) { s in st.open && st.open[s].removed }

  /** Inode s is in use on sectors that are all marked, and on sectors that are all free. */
  ghost predicate SectorsMarked(st: State, s: nat, d: DiskInode) {
    forall x: nat :: Uses(s, d, x) ==> x < |st.marked| && st.marked[x]
  }

  ghost predicate SectorsFree(st: State, s: nat, d: DiskInode) {
    forall x: nat :: Uses(s, d, x) ==> x < |st.marked| && !st.marked[x]
  }

  lemma OpenMarked(st: State, s: nat)
    requires Inv(st) && s in st.open
    ensures SectorsMarked(st, s, st.open[s].data) && st.open[s].openCnt >= 1
  {
    assert OpenOk(st, s) && Owned(st, s);
    assert Marked(st, s);
  }

  /** Over any run an inode that was removed while open stays open, and its sectors stay marked, until it has been
      closed as often as it was open; nobody can open it meanwhile. */
  lemma {:induction false} RemovedStaysOpen(states: seq<State>, ops: seq<(Op, Faults)>, answers: seq<Answer>, i: nat,
                                            j: nat, s: nat)
    requires IsTrace(states, ops, answers) && i <= j < |states| && RemovedOpen(states[i], s)
    requires Closes(ops, answers, s, i, j) < states[i].open[s].openCnt
    ensures s in states[j].open && RemovedOpen(states[j], s) && states[j].open[s].data == states[i].open[s].data
    ensures states[j].open[s].openCnt == states[i].open[s].openCnt - Closes(ops, answers, s, i, j)
    ensures SectorsMarked(states[j], s, states[i].open[s].data)
  {
    if i < j {
      RemovedStaysOpen(states, ops, answers, i, j - 1, s);
      TraceStep(states, ops, answers, j - 1);
      hide Inv, Next, SectorsMarked;
      StepOpeners(states[j - 1], ops[j - 1].0, ops[j - 1].1, answers[j - 1], states[j], s);
      OpenMarked(states[j], s);
    } else {
      OpenMarked(states[i], s);
    }
  }

  /** Call j closes inode s, open m times at i, for the m-th time since. */
  ghost predicate IsLastClose(ops: seq<(Op, Faults)>, answers: seq<Answer>, s: nat, i: nat, j: nat, m: nat)
    requires i <= j <= |answers| == |ops|
  {
    j < |ops| && ops[j].0 == CloseOp(s) && Closes(ops, answers, s, i, j) + 1 == m
  }

  lemma LastCloseIs(ops: seq<(Op, Faults)>, answers: seq<Answer>, s: nat, i: nat, j: nat, m: nat)
    requires i <= j <= |answers| == |ops|
    ensures IsLastClose(ops, answers, s, i, j, m) ==> j < |ops|
  {
  }

  /** The call that closes it for the last time frees its sectors. */
  lemma LastCloseFrees(states: seq<State>, ops: seq<(Op, Faults)>, answers: seq<Answer>, i: nat, j: nat, s: nat)
    requires IsTrace(states, ops, answers) && i <= j < |ops| && RemovedOpen(states[i], s)
    requires IsLastClose(ops, answers, s, i, j, states[i].open[s].openCnt)
    ensures answers[j] == Done(true) && s !in states[j + 1].open
    ensures SectorsFree(states[j + 1], s, states[i].open[s].data)
  {
    RemovedStaysOpen(states, ops, answers, i, j, s);
    TraceStep(states, ops, answers, j);
    CachedInode(states[j], s);
    hide Inv, Next;
    CloseEffect(states[j], s, ops[j].1, answers[j], states[j + 1]);
  }

  /** Memory and buffers for everything. */
  predicate NoFaults(st: State, f: Faults) {
    f.rootMem && f.dirMem && f.inodeMem && f.entryWrite && f.lookupReads >= |st.root|
  }

  /** In [i, j) the root directory is not written. */
  ghost predicate DirectoryIdle(ops: seq<(Op, Faults)>, answers: seq<Answer>, i: nat, j: nat)
    requires i <= j <= |ops| == |answers|
  {
    forall m :: i <= m < j && (ops[m].0.CreateOp? || ops[m].0.RemoveOp?) ==> answers[m] == Done(false)
  }

  lemma {:induction false} IdleKeepsRoot(states: seq<State>, ops: seq<(Op, Faults)>, answers: seq<Answer>, i: nat,
                                         j: nat)
    requires IsTrace(states, ops, answers) && i <= j < |states| && DirectoryIdle(ops, answers, i, j)
    ensures states[j].root == states[i].root
  {
    if i < j {
      IdleKeepsRoot(states, ops, answers, i, j - 1);
      TraceStep(states, ops, answers, j - 1);
      var st, f, r, n := states[j - 1], ops[j - 1].1, answers[j - 1], states[j];
      hide Inv, Next;
      match ops[j - 1].0 {
        case CreateOp(name, size) => CreateEffect(st, name, size, f, r, n);
        case OpenOp(name) => OpenEffect(st, name, f, r, n);
        case CloseOp(s) => CloseEffect(st, s, f, r, n);
        case RemoveOp(name) => RemoveEffect(st, name, f, r, n);
      }
    }
  }

  /** The name that opened s at i still is the name of s at k, and removing it marks s removed. */
  lemma RemoveByName(states: seq<State>, ops: seq<(Op, Faults)>, answers: seq<Answer>, i: nat, k: nat, name: string,
                     s: nat)
    requires IsTrace(states, ops, answers) && i < k < |ops| && DirectoryIdle(ops, answers, i + 1, k)
    requires ops[i].0 == OpenOp(name) && answers[i] == Handle(Some(s))
    requires ops[k].0 == RemoveOp(name) && NoFaults(states[k], ops[k].1) && s in states[k].open
    ensures answers[k] == Done(true) && RemovedOpen(states[k + 1], s)
    ensures states[k + 1].open[s].data == states[k].open[s].data
    ensures states[k + 1].open[s].openCnt == states[k].open[s].openCnt
  {
    hide IsTrace, Inv, Next, DirectoryIdle;
    TraceLengths(states, ops, answers);
    TraceStep(states, ops, answers, i);
    TraceStep(states, ops, answers, k);
    OpenEffect(states[i], name, ops[i].1, answers[i], states[i + 1]);
    IdleKeepsRoot(states, ops, answers, i + 1, k);
    var root := states[k].root;
    var e: nat :| FirstNamed(root, name, ops[i].1.lookupReads, e) && s == root[e].sector;
    assert FirstNamed(root, name, ops[k].1.lookupReads, e) && InodeToBeHad(states[k], e, ops[k].1);
    RemoveEffect(states[k], name, ops[k].1, answers[k], states[k + 1]);
    var d: nat :| FirstNamed(root, name, ops[k].1.lookupReads, d) && ErasedAt(states[k], states[k + 1], d);
    assert !(d < e) && !(e < d);
  }

  /** A file that was opened by name at i, is still open at k and is then removed by that name, with memory for it:
      the removal succeeds, and from then on the file stays open with its sectors marked until it has been closed
      as often as it was open, and the last close frees them. */
  lemma OpenThenRemove(states: seq<State>, ops: seq<(Op, Faults)>, answers: seq<Answer>, i: nat, k: nat, name: string,
                       s: nat, j: nat)
    requires IsTrace(states, ops, answers) && i < k < j < |states| && DirectoryIdle(ops, answers, i + 1, k)
    requires ops[i].0 == OpenOp(name) && answers[i] == Handle(Some(s))
    requires ops[k].0 == RemoveOp(name) && NoFaults(states[k], ops[k].1) && s in states[k].open
    ensures answers[k] == Done(true)
    ensures Closes(ops, answers, s, k + 1, j) < states[k].open[s].openCnt ==>
      s in states[j].open && SectorsMarked(states[j], s, states[k].open[s].data)
    ensures IsLastClose(ops, answers, s, k + 1, j, states[k].open[s].openCnt) ==>
      s !in states[j + 1].open && SectorsFree(states[j + 1], s, states[k].open[s].data)
  {
    hide *;
    TraceLengths(states, ops, answers);
    RemoveByName(states, ops, answers, i, k, name, s);
    var c, m := Closes(ops, answers, s, k + 1, j), states[k].open[s].openCnt;
    if c < m {
      RemovedStaysOpen(states, ops, answers, k + 1, j, s);
    }
    LastCloseIs(ops, answers, s, k + 1, j, m);
    if IsLastClose(ops, answers, s, k + 1, j, m) {
      LastCloseFrees(states, ops, answers, k + 1, j, s);
    }
  }

  // ----- When sectors are released -----

  /** Call op frees inode s: its last close after a removal, or its removal while nobody has it open. */
  ghost predicate Frees(st: State, op: Op, f: Faults, s: nat) {
    match op
    case CloseOp(t) => t == s && s in st.open && LastOfRemoved(st, s)
    case RemoveOp(name) =>
      var k := Target(st, name, f);
      RootOpens(st, f) && k.Some? && st.root[k.value].sector == s && s !in st.open
    case _ => false
  }

  lemma CreateFreesNothing(st: State, name: string, size: nat, f: Faults, x: nat)
    requires x < |st.marked| && st.marked[x]
    ensures |Created(st, name, size, f).marked| == |st.marked| && Created(st, name, size, f).marked[x]
  {
    if Reserves(st, size, f) {
      FirstIsGroup(st.marked, 1, 0);
      hide FirstFrom;
    }
  }

  /** A sector that becomes free belongs to an inode that the call frees, and all of that inode's sectors become
      free. */
  lemma StepFrees(st: State, op: Op, f: Faults, r: Answer, n: State, x: nat)
    requires Inv(st) && Next(st, op, f, r, n) && x < |st.marked| && st.marked[x]
    ensures |n.marked| == |st.marked|
    ensures !n.marked[x] <==> exists s :: Frees(st, op, f, s) && s in st.inodes && Uses(s, st.inodes[s], x)
  {
    hide Inv, Find, FindFrom, Closed;
    match op {
      case CreateOp(name, size) => CreateFreesNothing(st, name, size, f, x);
      case OpenOp(name) =>
      case CloseOp(s) =>
        if s in st.open {
          CachedInode(st, s);
          assert !n.marked[x] <==> LastOfRemoved(st, s) && Uses(s, st.inodes[s], x);
        }
      case RemoveOp(name) =>
        var k := Target(st, name, f);
        if RootOpens(st, f) && k.Some? {
          var s := st.root[k.value].sector;
          assert !n.marked[x] <==> s !in st.open && Uses(s, st.inodes[s], x);
        }
    }
  }

  lemma CachedInode(st: State, s: nat)
    requires Inv(st) && s in st.open
    ensures s in st.inodes && st.open[s].data == st.inodes[s]
  {
    assert OpenOk(st, s);
  }

  /** Over any run: a sector marked before and free after belongs to an inode that some call in between
      freed. */
  lemma {:induction false} TraceFrees(states: seq<State>, ops: seq<(Op, Faults)>, answers: seq<Answer>, i: nat, j: nat,
                                      x: nat)
    requires IsTrace(states, ops, answers) && i <= j < |states|
    requires x < |states[i].marked| && states[i].marked[x]
    ensures |states[j].marked| == |states[i].marked|
    ensures !states[j].marked[x] ==> exists m, s :: i <= m < j && FreedAt(states[m], ops[m].0, ops[m].1, s, x)
    decreases j - i
  {
    if i < j {
      hide Next, Frees;
      var op, f := ops[i].0, ops[i].1;
      StepFrees(states[i], op, f, answers[i], states[i + 1], x);
      if states[i + 1].marked[x] {
        TraceFrees(states, ops, answers, i + 1, j, x);
      } else {
        var s :| Frees(states[i], op, f, s) && s in states[i].inodes && Uses(s, states[i].inodes[s], x);
        assert FreedAt(states[i], op, f, s, x);
        SameSize(states, ops, answers, i + 1, j);
      }
    }
  }

  ghost predicate FreedAt(st: State, op: Op, f: Faults, s: nat, x: nat) {
    Frees(st, op, f, s) && s in st.inodes && Uses(s, st.inodes[s], x)
  }

  lemma StepSize(st: State, op: Op, f: Faults, r: Answer, n: State)
    requires Next(st, op, f, r, n)
    ensures |n.marked| == |st.marked|
  {
    hide Find, FindFrom, Closed;
  }

  lemma {:induction false} SameSize(states: seq<State>, ops: seq<(Op, Faults)>, answers: seq<Answer>, i: nat, j: nat)
    requires IsTrace(states, ops, answers) && i <= j < |states|
    ensures |states[j].marked| == |states[i].marked|
    decreases j - i
  {
    if i < j {
      hide Next;
      StepSize(states[i], ops[i].0, ops[i].1, answers[i], states[i + 1]);
      SameSize(states, ops, answers, i + 1, j);
    }
  }

  // ----- When names stay unique -----

  /** Call op gives a name a second time. */
  ghost predicate Duplicates(st: State, op: Op, f: Faults) {
    op.CreateOp? && CanCreate(st, op.name, op.size, f) && Hidden(st.root, op.name, f)
  }

  lemma StepNames(st: State, op: Op, f: Faults, r: Answer, n: State)
    requires Next(st, op, f, r, n) && UniqueNames(st.root)
    ensures UniqueNames(n.root) <==> !Duplicates(st, op, f)
  {
    hide Find, FindFrom, Closed, Slot, SlotFrom, Hidden, CanAdd, FirstGroup, FirstFrom;
    match op {
      case CreateOp(name, size) =>
        if CanCreate(st, name, size, f) {
          AddKeepsNames(st.root, name, f, FirstGroup(st.marked, 1).value);
        }
      case OpenOp(name) =>
      case CloseOp(s) =>
      case RemoveOp(name) =>
    }
  }

  /** Over any run that starts with unique names, they stay unique if and only if no call of filesys_create
      adds a name that its lookup failed to reach. */
  lemma {:induction false} TraceNames(states: seq<State>, ops: seq<(Op, Faults)>, answers: seq<Answer>)
    requires IsTrace(states, ops, answers) && UniqueNames(states[0].root)
    ensures (forall i :: 0 <= i < |states| ==> UniqueNames(states[i].root)) <==>
      forall i :: 0 <= i < |ops| ==> !Duplicates(states[i], ops[i].0, ops[i].1)
  {
    hide Next, Duplicates, UniqueNames, Inv;
    if forall i :: 0 <= i < |states| ==> UniqueNames(states[i].root) {
      forall i | 0 <= i < |ops|
        ensures !Duplicates(states[i], ops[i].0, ops[i].1)
      {
        assert UniqueNames(states[i].root) && UniqueNames(states[i + 1].root);
        StepNames(states[i], ops[i].0, ops[i].1, answers[i], states[i + 1]);
      }
    }
    if forall i :: 0 <= i < |ops| ==> !Duplicates(states[i], ops[i].0, ops[i].1) {
      forall i | 0 <= i < |states|
        ensures UniqueNames(states[i].root)
      {
        NamesTo(states, ops, answers, i);
      }
    }
  }

  lemma {:induction false} NamesTo(states: seq<State>, ops: seq<(Op, Faults)>, answers: seq<Answer>, i: nat)
    requires IsTrace(states, ops, answers) && UniqueNames(states[0].root) && i < |states|
    requires forall i :: 0 <= i < |ops| ==> !Duplicates(states[i], ops[i].0, ops[i].1)
    ensures UniqueNames(states[i].root)
  {
    hide Next, Duplicates, UniqueNames, Inv;
    if i > 0 {
      NamesTo(states, ops, answers, i - 1);
      assert !Duplicates(states[i - 1], ops[i - 1].0, ops[i - 1].1);
      StepNames(states[i - 1], ops[i - 1].0, ops[i - 1].1, answers[i - 1], states[i]);
    }
  }

  // ----- When names are lost -----

  /** Call op overwrites an entry in use. */
  ghost predicate Overwrites(st: State, op: Op, f: Faults) {
    op.CreateOp? && CanCreate(st, op.name, op.size, f) && st.root[Slot(st.root, f.scanReads)].inUse
  }

  /** A named inode loses its entry only when its name is removed or its entry overwritten; one of the two
      happens to some inode if and only if the call says so. */
  lemma StepLoses(st: State, op: Op, f: Faults, r: Answer, n: State)
    requires Inv(st) && Next(st, op, f, r, n)
    ensures (exists t :: Named(st.root, t) && !Named(n.root, t)) <==>
      Overwrites(st, op, f) || (op.RemoveOp? && r == Done(true))
  {
    hide FindFrom, Closed, SlotFrom, FirstFrom;
    match op {
      case CreateOp(name, size) =>
        if CanCreate(st, name, size, f) {
          var s := FirstGroup(st.marked, 1).value;
          FirstIsGroup(st.marked, 1, 0);
          FreeIsUnused(st, s, 1);
          assert !Named(st.root, s) by { assert Named(st.root, s) ==> Owned(st, s); }
          hide Inv, Named;
          AddLoses(st.root, name, f, s);
        }
      case OpenOp(name) =>
      case CloseOp(s) =>
      case RemoveOp(name) =>
        var k := Target(st, name, f);
        if RootOpens(st, f) && k.Some? {
          NamedAfterErase(st.root, k.value);
          assert Named(st.root, st.root[k.value].sector);
        }
    }
  }

  // ----- Creating, opening and removing by name -----

  /** While names are unique, a file just created is the one its name opens. */
  lemma CreateThenOpen(st: State, name: string, size: nat, f: Faults, g: Faults)
    requires CanCreate(st, name, size, f) && UniqueNames(Created(st, name, size, f).root)
    ensures var n, s := Created(st, name, size, f), FirstGroup(st.marked, 1).value;
      && s in n.inodes && n.inodes[s].length == size
      && (RootOpens(n, g) && g.inodeMem && g.fileMem && Slot(st.root, f.scanReads) < g.lookupReads ==>
            OpenTarget(n, name, g) == Some(s))
  {
    var n, s, k := Created(st, name, size, f), FirstGroup(st.marked, 1).value, Slot(st.root, f.scanReads);
    assert n.root[k] == DirEntry(s, name, true);
    hide FirstFrom, FindFrom, SlotFrom, Slot;
    var r := Find(n.root, name, g.lookupReads);
    assert k < g.lookupReads ==> r.Some? && (r.value < k || r.value == k || k < r.value);
  }

  /** While names are unique, a name just removed opens nothing. */
  lemma RemoveThenOpen(st: State, n: State, name: string, f: Faults, g: Faults)
    requires UniqueNames(st.root) && Target(st, name, f).Some? && Removed(st, n, Target(st, name, f).value)
    ensures OpenTarget(n, name, g) == None
  {
    hide FindFrom;
    var k := Target(st, name, f).value;
    assert forall i :: 0 <= i < |n.root| ==> !Has(n.root[i], name);
  }
}

/** The file system's operations: free map with rollback, inode life cycle, root directory. */
module FileSystems {
  import opened Basics
  import opened Bits
  import opened Bitmaps
  import opened FileSystemState
  import opened FileSystemSteps
  import InodeIO

  class FileSystem {
    const freeMap: Bitmap
    var inodes: map<nat, DiskInode>
    var open: map<nat, OpenInode>
    var root: seq<DirEntry>

    ghost function Abs(): State
      requires freeMap.Valid()
      reads this, freeMap.bits
    {
      State(freeMap.View(), inodes, open, root)
    }

    ghost predicate Valid()
      reads this, freeMap.bits
    {
      freeMap.Valid() && Inv(Abs())
    }

    /** Formatting: the two system inodes with their extents, an empty root directory of 16 slots of
        20 bytes.  The source panics on a device too small for that. */
    constructor Format(sectors: nat)
      requires 3 + InodeIO.BytesToSectors(4 * ElemCnt(sectors)) <= sectors
      ensures Valid() && fresh(freeMap.bits) && freeMap.bitCnt == sectors
      ensures open == map[] && |root| == 16 && forall i :: 0 <= i < 16 ==> !root[i].inUse
      ensures FilledTo(freeMap.View(), 3 + InodeIO.BytesToSectors(4 * ElemCnt(sectors)))
    {
      freeMap := new Bitmap(sectors);
      new;
      var size := 4 * ElemCnt(sectors);
      assert InodeIO.BytesToSectors(320) == 1 && InodeIO.BytesToSectors(size) > 0;
      hide InodeIO.BytesToSectors, ElemCnt, Inv;
      var b := SystemExtents(freeMap, InodeIO.BytesToSectors(size));
      inodes := map[FREE_MAP_SECTOR := DiskInode(2, size), ROOT_DIR_SECTOR := DiskInode(b, 320)];
      open := map[];
      root := seq(16, _ => DirEntry(0, "", false));
      FormatInv(freeMap.View(), b, size, inodes, root);
    }

    /** Marks the two system inodes and allocates the extents of the free map file (n sectors, found
        at sector 2) and of the root directory (one sector). */
    static method SystemExtents(freeMap: Bitmap, n: nat) returns (b: nat)
      requires freeMap.Valid() && 3 + n <= freeMap.bitCnt && n > 0
      requires freeMap.View() == seq(freeMap.bitCnt, _ => false)
      modifies freeMap.bits
      ensures b == 2 + n && FilledTo(freeMap.View(), 3 + n)
    {
      freeMap.Mark(FREE_MAP_SECTOR);
      freeMap.Mark(ROOT_DIR_SECTOR);
      ghost var b0 := freeMap.View();
      assert All(b0, 2, n, false);
      var a := freeMap.ScanAndFlip(0, n, false);
      FirstAtTwo(b0, n, a);
      hide IsFirstGroup;
      ghost var b1 := freeMap.View();
      assert All(b1, 2 + n, 1, false);
      var r := freeMap.ScanAndFlip(0, 1, false);
      FirstAfter(b1, 2 + n, r);
      b := r.value;
    }

    static lemma FirstAtTwo(b: seq<bool>, cnt: nat, r: Option<nat>)
      requires |b| >= 2 && b[0] && b[1] && cnt > 0 && All(b, 2, cnt, false)
      requires IsFirstGroup(b, 0, cnt, false, r)
      ensures r == Some(2)
    {
      assert r.Some?;
      assert b[r.value] == false;
    }

    static lemma FirstAfter(b: seq<bool>, j: nat, r: Option<nat>)
      requires IsFirstGroup(b, 0, 1, false, r) && FilledTo(b, j) && j < |b|
      ensures r == Some(j)
    {
      assert All(b, j, 1, false);
      assert r.Some? && b[r.value] == false;
    }

    static lemma FormatInv(b: seq<bool>, start: nat, size: nat, inodes: map<nat, DiskInode>, root: seq<DirEntry>)
      requires start == 2 + InodeIO.BytesToSectors(size) && FilledTo(b, start + 1)
      requires inodes == map[FREE_MAP_SECTOR := DiskInode(2, size), ROOT_DIR_SECTOR := DiskInode(start, 320)]
      requires forall i :: 0 <= i < |root| ==> !root[i].inUse
      ensures Inv(State(b, inodes, map[], root))
    {
    }

    /** free_map_allocate: the lowest free group, or, when there is none or the free map file cannot be
        written, no change. */
    method FreeMapAllocate(cnt: nat, writeOk: bool) returns (r: Option<nat>)
      requires freeMap.Valid()
      modifies freeMap.bits
      ensures (old(Valid()) ==> Valid()) && r == (if writeOk then FirstGroup(old(freeMap.View()), cnt) else None)
      ensures r.None? ==> Abs() == old(Abs())
      ensures r.Some? ==> All(old(freeMap.View()), r.value, cnt, false) && Abs() == Allocated(old(Abs()), r.value, cnt)
    {
      hide Inv;
      r := freeMap.ScanAndFlip(0, cnt, false);
      FirstGroupIs(old(freeMap.View()), cnt, r);
      hide FirstGroup, FirstFrom;
      if r.Some? && !writeOk {
        freeMap.SetMultiple(r.value, cnt, false);
        SetRangeUndone(old(freeMap.View()), r.value, cnt, true);
        r := None;
      }
      if r.Some? && Inv(old(Abs())) {
        AllocateKeepsInv(old(Abs()), r.value, cnt);
      }
    }

    /** free_map_release: the source asserts that all the sectors are marked. */
    method FreeMapRelease(sector: nat, cnt: nat)
      requires freeMap.Valid() && All(freeMap.View(), sector, cnt, true)
      modifies freeMap.bits
      ensures Abs() == Released(old(Abs()), sector, cnt)
      ensures old(Valid()) && Unused(old(Abs()), sector, cnt) ==> Valid()
    {
      ghost var st := Abs();
      hide Inv, Unused;
      freeMap.SetMultiple(sector, cnt, false);
      if Inv(st) && Unused(st, sector, cnt) {
        ReleaseKeepsInv(st, sector, cnt);
      }
    }

    /** inode_open of a sector that reads as inode raw: joins the openers, or reads the inode in; fails without
        memory. */
    method InodeOpen(s: nat, raw: DiskInode, memOk: bool) returns (ok: bool)
      requires freeMap.Valid() && (s in inodes ==> raw == inodes[s])
      modifies this`open
      ensures ok <==> s in old(open) || memOk
      ensures open == if !ok then old(open) else OpenedAs(old(open), s, raw)
      ensures s in inodes ==> Abs() == if ok then Opened(old(Abs()), s) else old(Abs())
      ensures old(Valid()) && Owned(old(Abs()), s) ==> Valid()
    {
      ghost var st := Abs();
      hide Inv, Owned;
      if Inv(st) && Owned(st, s) {
        OpenKeepsInv(st, s);
      }
      ok := true;
      if s in open {
        open := open[s := open[s].(openCnt := open[s].openCnt + 1)];
      } else if memOk {
        open := open[s := OpenInode(1, false, raw)];
      } else {
        ok := false;
      }
    }

    /** inode_close. */
    method InodeClose(s: nat)
      requires Valid() && s in open
      modifies this`open, freeMap.bits
      ensures Valid() && AfterClose(old(Abs()), s, Abs())
    {
      ghost var st := Abs();
      if LastOfRemoved(st, s) {
        FreedKeepsInv(st, s);
      } else {
        CloseKeepsInv(st, s);
      }
      hide Inv, Owned, Unused;
      var inode := open[s];
      if inode.openCnt > 1 {
        open := open[s := inode.(openCnt := inode.openCnt - 1)];
      } else {
        assert inode.openCnt == 1 by { OpenCounts(st, s); }
        open := open - {s};
        if inode.removed {
          FreeMapRelease(s, 1);
          FreeMapRelease(inode.data.start, InodeIO.BytesToSectors(inode.data.length));
          assert Abs() == Freed(Closed(st, s), s, st.inodes[s]);
        } else {
          assert Abs() == Closed(st, s);
        }
      }
    }

    static lemma OpenCounts(st: State, s: nat)
      requires Inv(st) && s in st.open
      ensures st.open[s].openCnt >= 1
    {
      assert OpenOk(st, s);
    }

    /** lookup, which stops where there is no memory to read an entry. */
    method Lookup(name: string, seen: nat) returns (r: Option<nat>)
      ensures r == Find(root, name, seen)
    {
      var i := 0;
      while i < |root| && i < seen
        invariant i <= |root| && Find(root, name, seen) == FindFrom(root, name, seen, i)
      {
        if root[i].inUse && root[i].name == name {
          return Some(i);
        }
        i := i + 1;
      }
      return None;
    }

    /** The scan of dir_add: it stops at a free slot, at end of file, or where there is no memory to read. */
    method ScanSlots(seen: nat) returns (k: nat)
      ensures k == Slot(root, seen)
    {
      k := 0;
      while k < |root| && k < seen && root[k].inUse
        invariant k <= |root| && Slot(root, seen) == SlotFrom(root, seen, k)
      {
        k := k + 1;
      }
    }

    /** inode_create: an extent is allocated and the inode written to its sector. If no owned inode uses that sector,
        consistency is kept. */
    method InodeCreate(s: nat, length: nat, callocOk: bool, writeOk: bool) returns (ok: bool)
      requires freeMap.Valid()
      modifies this`inodes, freeMap.bits
      ensures ok <==> callocOk && writeOk && FirstGroup(old(freeMap.View()), InodeIO.BytesToSectors(length)).Some?
      ensures Abs() == if ok then WithInode(old(Abs()), s, length) else old(Abs())
      ensures old(Valid() && IsSpare(Abs(), s)) ==> Valid() && IsSpare(Abs(), s) && (ok ==> IsNew(Abs(), s))
    {
      ghost var st := Abs();
      hide Inv, Owned, Unused, FirstGroup;
      ok := false;
      if callocOk {
        var r := FreeMapAllocate(InodeIO.BytesToSectors(length), writeOk);
        if r.Some? {
          inodes := inodes[s := DiskInode(r.value, length)];
          if Inv(st) && IsSpare(st, s) {
            FreeIsUnused(st, r.value, InodeIO.BytesToSectors(length));
            WriteUnusedInode(st, r.value, InodeIO.BytesToSectors(length), s, inodes[s], Abs());
          }
          ok := true;
        }
      }
    }

    /** Sector s is marked, and no owned inode uses it. */
    static ghost predicate IsSpare(st: State, s: nat) {
      s > ROOT_DIR_SECTOR && s < |st.marked| && st.marked[s] && Unused(st, s, 1)
    }

    /** The inode written there has a marked extent of its own. */
    static ghost predicate IsNew(st: State, s: nat) {
      && s in st.inodes && !InExtent(st.inodes[s], s)
      && Unused(st, st.inodes[s].start, InodeIO.BytesToSectors(st.inodes[s].length))
      && All(st.marked, st.inodes[s].start, InodeIO.BytesToSectors(st.inodes[s].length), true)
    }

    /** Writing an inode nobody owns changes nothing anybody owns. */
    static lemma WriteUnusedInode(st: State, a: nat, n: nat, s: nat, d: DiskInode, st': State)
      requires Inv(st) && Unused(st, s, 1) && Unused(st, a, n) && a + n <= |st.marked|
      requires st' == Allocated(st, a, n).(inodes := st.inodes[s := d])
      ensures Inv(st') && Unused(st', s, 1) && Unused(st', a, n)
    {
      AllocateKeepsInv(st, a, n);
      var m := Allocated(st, a, n);
      hide SetRange, All;
      forall t: nat | Owned(st', t)
        ensures t != s && Marked(st', t)
      {
        assert Owned(st, t);
        assert Owned(m, t);
        assert Marked(m, t);
      }
      forall t, u | Owned(st', t) && Owned(st', u)
        ensures Separate(st', t, u)
      {
        assert Owned(m, t) && Owned(m, u);
        assert Separate(m, t, u);
      }
      forall t | t in st'.open
        ensures OpenOk(st', t)
      {
        assert OpenOk(m, t);
        assert Owned(st', t);
      }
    }

    /** dir_open_root and file_open: an inode is opened for a new handle; without memory for the
        handle it is closed again. */
    method OpenHandle(s: nat, inodeMem: bool, handleMem: bool) returns (ok: bool)
      requires Valid() && Owned(Abs(), s)
      modifies this`open, freeMap.bits
      ensures Valid() && s in inodes && Abs() == if ok then Opened(old(Abs()), s) else old(Abs())
      ensures ok <==> (s in old(open) || inodeMem) && handleMem
    {
      OpenKeepsInv(Abs(), s);
      ghost var st := Abs();
      hide Inv, Owned;
      ok := InodeOpen(s, inodes[s], inodeMem);
      if ok && !handleMem {
        CloseAgain(st, s);
        ok := false;
      }
    }

    /** Closing an inode right after it was opened in state st. */
    method CloseAgain(ghost st: State, s: nat)
      requires Valid() && Inv(st) && Owned(st, s) && s in st.inodes && Abs() == Opened(st, s)
      modifies this`open, freeMap.bits
      ensures Valid() && Abs() == st
    {
      OpenThenClose(st, s);
      hide Inv, Owned, Opened, Closed;
      InodeClose(s);
      assert freeMap.View() == st.marked;
    }

    /** Opening and closing again leaves the list of open inodes as it was. */
    static lemma OpenThenClose(st: State, s: nat)
      requires Inv(st) && Owned(st, s) && s in st.inodes
      ensures s in Opened(st, s).open && Closed(Opened(st, s), s).open == st.open
      ensures !(Opened(st, s).open[s].openCnt == 1 && Opened(st, s).open[s].removed)
    {
      if s in st.open {
        assert OpenOk(st, s);
      }
    }

    /** dir_add, on an inode in sector s that nothing else uses. */
    method DirAdd(name: string, s: nat, f: Faults) returns (ok: bool)
      requires Valid() && IsSpare(Abs(), s) && IsNew(Abs(), s)
      modifies this`root
      ensures Valid() && (ok <==> CanAdd(old(root), name, f))
      ensures root == if ok then old(root)[Slot(old(root), f.scanReads) := DirEntry(s, name, true)] else old(root)
    {
      hide Inv, Unused, Find, Slot;
      ok := false;
      if name == "" || |name| > NAME_MAX {
        return;
      }
      var found := Lookup(name, f.lookupReads);
      if found.Some? {
        return;
      }
      var k := ScanSlots(f.scanReads);
      if k == |root| || !f.entryWrite {
        return;
      }
      CreateKeepsInv(Abs(), s, inodes[s], k, name);
      assert inodes == inodes[s := inodes[s]];
      root := root[k := DirEntry(s, name, true)];
      ok := true;
    }

    /** filesys_create. */
    method Create(name: string, size: nat, f: Faults) returns (ok: bool)
      requires Valid()
      modifies this, freeMap.bits
      ensures Valid() && (ok <==> CanCreate(old(Abs()), name, size, f)) && Abs() == Created(old(Abs()), name, size, f)
    {
      ghost var st := Abs();
      assert Owned(st, ROOT_DIR_SECTOR);
      hide Inv, Owned, CanCreate, Created;
      ok := OpenHandle(ROOT_DIR_SECTOR, f.rootMem, f.dirMem);
      if !ok {
        CannotReserve(st, name, size, f);
        return;
      }
      ok := CreateInRoot(name, size, f);
      CreateInOpened(st, name, size, f);
      CloseAfter(st, Created(st, name, size, f));
    }

    static lemma CannotReserve(st: State, name: string, size: nat, f: Faults)
      requires !RootOpens(st, f)
      ensures !CanCreate(st, name, size, f) && Created(st, name, size, f) == st
    {
    }

    /** Opening the root first changes nothing for the rest of filesys_create. */
    static lemma CreateInOpened(st: State, name: string, size: nat, f: Faults)
      requires RootOpens(st, f) && ROOT_DIR_SECTOR in st.inodes
      ensures var o := Opened(st, ROOT_DIR_SECTOR);
        && CanCreate(o, name, size, f.(dirMem := true)) == CanCreate(st, name, size, f)
        && Created(o, name, size, f.(dirMem := true)) == Created(st, name, size, f).(open := o.open)
        && Created(st, name, size, f).open == st.open
    {
      hide FirstGroup, CanAdd;
      var o := Opened(st, ROOT_DIR_SECTOR);
      assert Reserves(o, size, f.(dirMem := true)) == Reserves(st, size, f);
    }

    /** dir_close of the root, which was opened in a state st whose open inodes have not changed since. */
    method CloseAfter(ghost st: State, ghost n: State)
      requires Valid() && Inv(st) && ROOT_DIR_SECTOR in st.inodes && ROOT_DIR_SECTOR in open
      requires Abs() == n.(open := Opened(st, ROOT_DIR_SECTOR).open) && n.open == st.open
      modifies this`open, freeMap.bits
      ensures Valid() && Abs() == n
    {
      assert Owned(st, ROOT_DIR_SECTOR);
      OpenThenClose(st, ROOT_DIR_SECTOR);
      hide Inv, Owned, Opened;
      InodeClose(ROOT_DIR_SECTOR);
      assert freeMap.View() == n.marked;
    }

    static lemma NotSystem(st: State, s: nat)
      requires Unused(st, s, 1)
      ensures s > ROOT_DIR_SECTOR
    {
      assert Owned(st, FREE_MAP_SECTOR) && Owned(st, ROOT_DIR_SECTOR);
    }

    /** filesys_create between dir_open_root and dir_close. */
    method CreateInRoot(name: string, size: nat, f: Faults) returns (ok: bool)
      requires Valid() && ROOT_DIR_SECTOR in open
      modifies this`inodes, this`root, freeMap.bits
      ensures Valid() && (ok <==> CanCreate(old(Abs()), name, size, f.(dirMem := true)))
      ensures Abs() == Created(old(Abs()), name, size, f.(dirMem := true))
    {
      ghost var st := Abs();
      ok := false;
      hide Inv, Unused, Owned, CanAdd, FirstGroup, WithInode;
      var s := FreeMapAllocate(1, f.write1);
      if s.Some? {
        FreeIsUnused(st, s.value, 1);
        NotSystem(st, s.value);
        SectorTaken(st, s.value);
        ok := CreateAt(name, size, f, s.value);
        SectorBack(st, s.value);
      }
    }

    static lemma SectorTaken(st: State, s: nat)
      requires Unused(st, s, 1) && FirstGroup(st.marked, 1) == Some(s) && s < |st.marked|
      ensures WithSector(st) == Allocated(st, s, 1) && Unused(WithSector(st), s, 1) && WithSector(st).marked[s]
    {
      hide FirstGroup;
    }

    static lemma SectorBack(st: State, s: nat)
      requires All(st.marked, s, 1, false)
      ensures Released(Allocated(st, s, 1), s, 1) == st
    {
      SetRangeUndone(st.marked, s, 1, true);
    }

    /** Memory for the inode, a free group for its data, and the write of the free map. */
    static ghost predicate HasExtent(st: State, size: nat, f: Faults) {
      f.inodeMem && f.write2 && FirstGroup(st.marked, InodeIO.BytesToSectors(size)).Some?
    }

    /** The rest of filesys_create once sector s is taken for the inode. */
    method CreateAt(name: string, size: nat, f: Faults, s: nat) returns (ok: bool)
      requires Valid() && IsSpare(Abs(), s)
      modifies this`inodes, this`root, freeMap.bits
      ensures Valid() && (ok <==> HasExtent(old(Abs()), size, f) && CanAdd(old(root), name, f))
      ensures Abs() ==
        if !HasExtent(old(Abs()), size, f) then Released(old(Abs()), s, 1)
        else
          var w := WithInode(old(Abs()), s, size);
          if ok then w.(root := old(root)[Slot(old(root), f.scanReads) := DirEntry(s, name, true)])
          else Released(w, s, 1)
    {
      ghost var st := Abs();
      hide Inv, Unused, Owned, CanAdd, FirstGroup, Slot, WithInode, IsSpare, IsNew;
      ok := InodeCreate(s, size, f.inodeMem, f.write2);
      if ok {
        ok := DirAdd(name, s, f);
      }
      if !ok {
        GiveUp(s);
      }
    }

    /** The free_map_release of filesys_create. */
    method GiveUp(s: nat)
      requires Valid() && IsSpare(Abs(), s)
      modifies freeMap.bits
      ensures s < |old(Abs()).marked| && Valid() && Abs() == Released(old(Abs()), s, 1)
    {
      hide Inv, Unused;
      FreeMapRelease(s, 1);
    }

    /** filesys_open: the inode of the named file gets one more opener, or nothing changes. */
    method OpenFile(name: string, f: Faults) returns (r: Option<nat>)
      requires Valid()
      modifies this`open, freeMap.bits
      ensures Valid() && r == OpenTarget(old(Abs()), name, f)
      ensures r.None? ==> Abs() == old(Abs())
      ensures r.Some? ==> r.value in inodes && Abs() == Opened(old(Abs()), r.value)
    {
      ghost var st := Abs();
      assert Owned(st, ROOT_DIR_SECTOR);
      hide Inv, Owned, Find;
      var dir := OpenHandle(ROOT_DIR_SECTOR, f.rootMem, f.dirMem);
      if !dir {
        return None;
      }
      var found := Lookup(name, f.lookupReads);
      if found.None? {
        CloseAgain(st, ROOT_DIR_SECTOR);
        return None;
      }
      var s := root[found.value].sector;
      EntryOwned(st, found.value);
      EntryOwned(Abs(), found.value);
      var ok := InodeOpen(s, inodes[s], f.inodeMem);
      if !ok {
        CloseAgain(st, ROOT_DIR_SECTOR);
        return None;
      }
      CloseUnder(st, s);
      r := Some(s);
      if !f.fileMem {
        CloseAgain(st, s);
        r := None;
      }
    }

    static lemma EntryOwned(st: State, k: nat)
      requires Inv(st) && k < |st.root| && st.root[k].inUse
      ensures Owned(st, st.root[k].sector) && st.root[k].sector in st.inodes && st.root[k].sector > ROOT_DIR_SECTOR
    {
      assert Named(st.root, st.root[k].sector);
      assert Marked(st, st.root[k].sector);
    }

    /** dir_close of the root, which was opened before inode s. */
    method CloseUnder(ghost st: State, s: nat)
      requires Valid() && Inv(st) && ROOT_DIR_SECTOR in st.inodes && s in st.inodes && s > ROOT_DIR_SECTOR
      requires Abs() == Opened(Opened(st, ROOT_DIR_SECTOR), s)
      modifies this`open, freeMap.bits
      ensures Valid() && Abs() == Opened(st, s)
    {
      assert Owned(st, ROOT_DIR_SECTOR);
      OpenThenClose(st, ROOT_DIR_SECTOR);
      OpensCommute(st, ROOT_DIR_SECTOR, s);
      hide Inv, Owned;
      InodeClose(ROOT_DIR_SECTOR);
      assert freeMap.View() == st.marked;
    }

    static lemma OpensCommute(st: State, r: nat, s: nat)
      requires Inv(st) && r != s && r in st.inodes && s in st.inodes
      ensures var o := Opened(Opened(st, r), s);
        && r in o.open && o.open[r] == Opened(st, r).open[r]
        && Closed(o, r).open == Opened(st, s).open
    {
      if r in st.open {
        assert OpenOk(st, r);
      }
    }

    /** dir_remove: the entry is erased and the inode marked removed; its sectors go at once if
        nobody else has it open, otherwise they stay until the last close. */
    method DirRemove(name: string, f: Faults) returns (ok: bool)
      requires Valid()
      modifies this`open, this`root, freeMap.bits
      ensures Valid() && (ok <==> Target(old(Abs()), name, f).Some?)
      ensures if ok then Removed(old(Abs()), Abs(), Target(old(Abs()), name, f).value) else Abs() == old(Abs())
      ensures ok <==> Erasable(old(Abs()), name, f)
      ensures ok ==> exists k: nat :: FirstNamed(old(root), name, f.lookupReads, k) && ErasedAt(old(Abs()), Abs(), k)
    {
      ok := false;
      TargetIs(Abs(), name, f);
      hide Inv, Owned, Find, Opened, Removed, FirstNamed, Erasable, ErasedAt;
      var found := Lookup(name, f.lookupReads);
      if found.None? {
        return;
      }
      var k := found.value;
      var s := root[k].sector;
      ghost var st := Abs();
      EntryOwned(st, k);
      ok := InodeOpen(s, inodes[s], f.inodeMem);
      if !ok {
        return;
      }
      if !f.entryWrite {
        CloseAgain(st, s);
        return false;
      }
      RemovedStep(st, k, s);
      EraseKeepsInv(Abs(), k);
      root := root[k := root[k].(inUse := false)];
      open := open[s := open[s].(removed := true)];
      assert Abs() == Erased(Opened(st, s), k);
      InodeClose(s);
      RemovedAfter(st, k, s, Abs());
    }

    static lemma RemovedAfter(st: State, k: nat, s: nat, n: State)
      requires Inv(st) && k < |st.root| && st.root[k].inUse && s == st.root[k].sector && s in st.inodes
      requires s in Opened(st, s).open && s in Erased(Opened(st, s), k).open
      requires AfterClose(Erased(Opened(st, s), k), s, n)
      ensures Removed(st, n, k) && ErasedAt(st, n, k)
    {
      RemovedStep(st, k, s);
    }

    static lemma RemovedStep(st: State, k: nat, s: nat)
      requires Inv(st) && k < |st.root| && st.root[k].inUse && s == st.root[k].sector && s in st.inodes
      ensures s in Opened(st, s).open
      ensures var e := Erased(Opened(st, s), k);
        && s in e.open && e.open[s].removed && e.open[s].data == st.inodes[s]
        && (s in st.open ==> e.open[s].openCnt > 1 && Closed(e, s).open == st.open[s := st.open[s].(removed := true)])
        && (s !in st.open ==> e.open[s].openCnt == 1 && Closed(e, s).open == st.open)
    {
      if s in st.open {
        assert OpenOk(st, s);
      }
    }

    /** filesys_remove. */
    method Remove(name: string, f: Faults) returns (ok: bool)
      requires Valid()
      modifies this`open, this`root, freeMap.bits
      ensures Valid() && (ok <==> RootOpens(old(Abs()), f) && Target(old(Abs()), name, f).Some?)
      ensures if ok then Removed(old(Abs()), Abs(), Target(old(Abs()), name, f).value) else Abs() == old(Abs())
    {
      ghost var st := Abs();
      assert Owned(st, ROOT_DIR_SECTOR);
      hide Inv, Owned, Removed, Target, Erasable, FirstNamed, ErasedAt;
      ok := OpenHandle(ROOT_DIR_SECTOR, f.rootMem, f.dirMem);
      if !ok {
        return;
      }
      SameTarget(st, name, f);
      ok := DirRemove(name, f);
      if ok {
        CloseAfterRemove(st, Target(st, name, f).value);
      } else {
        CloseAgain(st, ROOT_DIR_SECTOR);
      }
    }

    /** dir_close of the root, which was opened in state st, after the entry in slot k was removed. */
    method CloseAfterRemove(ghost st: State, ghost k: nat)
      requires Valid() && Inv(st) && ROOT_DIR_SECTOR in st.inodes && Removed(Opened(st, ROOT_DIR_SECTOR), Abs(), k)
      modifies this`open, freeMap.bits
      ensures Valid() && Removed(st, Abs(), k)
    {
      ghost var n := Abs();
      RemoveThenClose(st, n, k);
      hide Inv, Removed;
      InodeClose(ROOT_DIR_SECTOR);
      assert Abs() == n.(open := Closed(n, ROOT_DIR_SECTOR).open) by { assert freeMap.View() == n.marked; }
    }

    static lemma SameTarget(st: State, name: string, f: Faults)
      requires Inv(st) && ROOT_DIR_SECTOR in st.inodes
      ensures Target(Opened(st, ROOT_DIR_SECTOR), name, f) == Target(st, name, f)
    {
    }

    static lemma RemoveThenClose(st: State, n: State, k: nat)
      requires Inv(st) && ROOT_DIR_SECTOR in st.inodes && Removed(Opened(st, ROOT_DIR_SECTOR), n, k)
      ensures ROOT_DIR_SECTOR in n.open && !LastOfRemoved(n, ROOT_DIR_SECTOR)
      ensures Removed(st, n.(open := Closed(n, ROOT_DIR_SECTOR).open), k)
    {
      assert st.root[k].sector > ROOT_DIR_SECTOR;
      if ROOT_DIR_SECTOR in st.open {
        assert OpenOk(st, ROOT_DIR_SECTOR);
      }
    }

    method Step(op: Op, f: Faults) returns (r: Answer)
      requires Valid()
      modifies this, freeMap.bits
      ensures Valid() && Next(old(Abs()), op, f, r, Abs())
    {
      hide Inv, CanCreate, Created, OpenTarget, Target, Removed, Opened;
      match op {
        case CreateOp(name, size) =>
          var ok := Create(name, size, f);
          r := Done(ok);
        case OpenOp(name) =>
          var t := OpenFile(name, f);
          r := Handle(t);
        case CloseOp(s) =>
          r := Done(s in open);
          if s in open {
            InodeClose(s);
          }
        case RemoveOp(name) =>
          var ok := Remove(name, f);
          r := Done(ok);
      }
    }

    /** Any sequence of calls, whatever fails in them: every state on the way is consistent. */
    method Run(ops: seq<(Op, Faults)>) returns (answers: seq<Answer>, ghost states: seq<State>)
      requires Valid()
      modifies this, freeMap.bits
      ensures Valid() && IsTrace(states, ops, answers) && states[0] == old(Abs()) && states[|ops|] == Abs()
    {
      hide Inv, Next, Abs;
      answers, states := [], [Abs()];
      for i := 0 to |ops|
        invariant Valid() && |answers| == i && |states| == i + 1
        invariant states[0] == old(Abs()) && states[i] == Abs() && IsTrace(states, ops[..i], answers)
      {
        var r := Step(ops[i].0, ops[i].1);
        assert ops[..i + 1] == ops[..i] + [ops[i]];
        answers := answers + [r];
        states := states + [Abs()];
      }
      assert ops[..|ops|] == ops;
    }
  }

  // ----- A run in which bounce buffers fail -----

  /** Every allocation and write succeeds, the directory being read as far as given. */
  function Reads(lookup: nat, scan: nat): Faults { Faults(true, true, true, true, true, true, lookup, scan, true) }

  /** Creating an empty file on a device of which the first k sectors are in use takes sector k. */
  lemma CreateEmpty(st: State, name: string, f: Faults, k: nat)
    requires FilledTo(st.marked, k) && k < |st.marked| && f == Reads(f.lookupReads, f.scanReads)
    requires CanAdd(st.root, name, f)
    ensures var n := Created(st, name, 0, f);
      && CanCreate(st, name, 0, f) && FilledTo(n.marked, k + 1) && |n.marked| == |st.marked|
      && n.root == st.root[Slot(st.root, f.scanReads) := DirEntry(k, name, true)]
  {
    assert All(st.marked, k, 1, false);
    assert forall j :: 0 <= j < k ==> st.marked[j] && !All(st.marked, j, 1, false);
    FirstGroupIs(st.marked, 1, Some(k));
    FirstGroupIs(WithSector(st).marked, 0, Some(0));
    assert InodeIO.BytesToSectors(0) == 0;
    hide FirstFrom, CanAdd, Slot;
  }

  /** Where the scan stops is determined. */
  lemma SlotIs(root: seq<DirEntry>, seen: nat, k: nat)
    requires IsSlot(root, seen, k)
    ensures Slot(root, seen) == k
  {
    var s := Slot(root, seen);
    hide Slot, SlotFrom;
    assert s < k || s == k || k < s;
  }

  function BounceOps(): seq<(Op, Faults)> {
    [(CreateOp("a", 0), Reads(16, 16)), (CreateOp("a", 0), Reads(0, 16)), (CreateOp("b", 0), Reads(16, 0))]
  }

  /** From a new file system: a is created; then again, where lookup cannot read; then b, where the scan for a free slot
      cannot. The second call gives the name twice, and the third loses an entry that is in use. */
  method BounceRun() returns (answers: seq<Answer>, ghost states: seq<State>)
    ensures answers == [Done(true), Done(true), Done(true)] && |states| == 4
    ensures UniqueNames(states[1].root) && !UniqueNames(states[2].root)
    ensures exists t :: Named(states[2].root, t) && !Named(states[3].root, t)
  {
    var ops := BounceOps();
    assert InodeIO.BytesToSectors(4 * ElemCnt(8)) == 1;
    var fs := new FileSystem.Format(8);
    ghost var st := fs.Abs();
    hide Inv, InodeIO.BytesToSectors, ElemCnt;
    answers, states := fs.Run(ops);
    BounceStates(states, ops, answers);
  }

  lemma BounceStates(states: seq<State>, ops: seq<(Op, Faults)>, answers: seq<Answer>)
    requires ops == BounceOps()
    requires IsTrace(states, ops, answers) && |states[0].root| == 16
    requires FilledTo(states[0].marked, 4) && |states[0].marked| == 8
    requires forall i :: 0 <= i < 16 ==> !states[0].root[i].inUse
    ensures answers == [Done(true), Done(true), Done(true)]
    ensures UniqueNames(states[1].root) && !UniqueNames(states[2].root)
    ensures exists t :: Named(states[2].root, t) && !Named(states[3].root, t)
  {
    FirstA(states[0], answers[0], states[1]);
    SecondA(states[1], answers[1], states[2]);
    ThenB(states[2], answers[2], states[3]);
    assert answers == [answers[0], answers[1], answers[2]];
  }

  lemma FirstA(st: State, r: Answer, n: State)
    requires Next(st, CreateOp("a", 0), Reads(16, 16), r, n)
    requires |st.root| == 16 && FilledTo(st.marked, 4) && |st.marked| == 8
    requires forall i :: 0 <= i < 16 ==> !st.root[i].inUse
    ensures r == Done(true) && FilledTo(n.marked, 5) && |n.marked| == 8
    ensures n.root == st.root[0 := DirEntry(4, "a", true)] && UniqueNames(n.root)
  {
    SlotIs(st.root, 16, 0);
    hide Slot, FindFrom, FirstGroup;
    CreateEmpty(st, "a", Reads(16, 16), 4);
  }

  lemma SecondA(st: State, r: Answer, n: State)
    requires Next(st, CreateOp("a", 0), Reads(0, 16), r, n)
    requires |st.root| == 16 && FilledTo(st.marked, 5) && |st.marked| == 8
    requires st.root[0] == DirEntry(4, "a", true) && !st.root[1].inUse && UniqueNames(st.root)
    ensures r == Done(true) && FilledTo(n.marked, 6) && |n.marked| == 8
    ensures n.root == st.root[1 := DirEntry(5, "a", true)] && !UniqueNames(n.root)
  {
    SlotIs(st.root, 16, 1);
    hide Slot, FindFrom, FirstGroup;
    CreateEmpty(st, "a", Reads(0, 16), 5);
    assert Has(st.root[0], "a");
    AddKeepsNames(st.root, "a", Reads(0, 16), 5);
  }

  lemma ThenB(st: State, r: Answer, n: State)
    requires Next(st, CreateOp("b", 0), Reads(16, 0), r, n)
    requires |st.root| == 16 && FilledTo(st.marked, 6) && |st.marked| == 8
    requires Inv(st) && st.root[0] == DirEntry(4, "a", true)
    requires forall i :: 0 <= i < 16 && st.root[i].inUse ==> st.root[i].name == "a"
    ensures r == Done(true) && exists t :: Named(st.root, t) && !Named(n.root, t)
  {
    SlotIs(st.root, 0, 0);
    hide Slot, FindFrom, FirstGroup;
    CreateEmpty(st, "b", Reads(16, 0), 6);
    StepLoses(st, CreateOp("b", 0), Reads(16, 0), r, n);
  }
}
