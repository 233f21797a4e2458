/** Swap slots: a slot is eight sectors of the swap device; slot numbers handed out are one-based. */
module Swapping {
  import opened Basics
  import opened Bits
  import opened Bitmaps
  import opened InodeIO

  const PAGE_SIZE := 4096

  type PageData = s: seq<byte> | |s| == PAGE_SIZE witness seq(PAGE_SIZE, _ => 0)

  /** The bytes in zero-based slot k. */
  ghost function SlotData(disk: seq<Sector>, k: nat): (d: PageData)
    requires 8 * k + 8 <= |disk|
    ensures forall i {:trigger d[i]} :: 0 <= i < PAGE_SIZE ==> d[i] == disk[8 * k + i / SECTOR_SIZE][i % SECTOR_SIZE]
  {
    seq(PAGE_SIZE, i requires 0 <= i < PAGE_SIZE => disk[8 * k + i / SECTOR_SIZE][i % SECTOR_SIZE])
  }

  /** Sector j of a page. */
  function Part(d: PageData, j: nat): Sector
    requires j < 8
  {
    d[SECTOR_SIZE * j..SECTOR_SIZE * j + SECTOR_SIZE]
  }

  lemma PartsAreData(disk: seq<Sector>, k: nat, d: PageData)
    requires 8 * k + 8 <= |disk| && forall j :: 0 <= j < 8 ==> disk[8 * k + j] == Part(d, j)
    ensures SlotData(disk, k) == d
  {
    var s := SlotData(disk, k);
    forall i | 0 <= i < PAGE_SIZE
      ensures s[i] == d[i]
    {
      var j := i / SECTOR_SIZE;
      assert disk[8 * k + j] == Part(d, j);
    }
  }

  lemma DataInParts(disk: seq<Sector>, k: nat, j: nat)
    requires 8 * k + 8 <= |disk| && j < 8
    ensures Part(SlotData(disk, k), j) == disk[8 * k + j]
  {
    var p := Part(SlotData(disk, k), j);
    forall i | 0 <= i < SECTOR_SIZE
      ensures p[i] == disk[8 * k + j][i]
    {
      assert p[i] == SlotData(disk, k)[SECTOR_SIZE * j + i];
      assert (SECTOR_SIZE * j + i) / SECTOR_SIZE == j && (SECTOR_SIZE * j + i) % SECTOR_SIZE == i;
    }
  }

  lemma SlotKept(disk: seq<Sector>, disk': seq<Sector>, k: nat, l: nat)
    requires OnlySlot(disk, disk', k) && 8 * l + 8 <= |disk| && k != l
    ensures SlotData(disk', l) == SlotData(disk, l)
  {
    forall j | 0 <= j < 8
      ensures disk'[8 * l + j] == Part(SlotData(disk, l), j)
    {
      DataInParts(disk, l, j);
    }
    PartsAreData(disk', l, SlotData(disk, l));
  }

  /** At most the sectors of slot k differ. */
  ghost predicate OnlySlot(disk: seq<Sector>, disk': seq<Sector>, k: nat) {
    && |disk'| == |disk| && 8 * k + 8 <= |disk|
    && forall s :: 0 <= s < |disk| && !(8 * k <= s < 8 * k + 8) ==> disk'[s] == disk[s]
  }

  /** k is the lowest free slot. */
  ghost predicate FirstFree(bits: seq<bool>, k: nat) {
    k < |bits| && !bits[k] && forall j :: 0 <= j < k ==> bits[j]
  }

  /** Every slot is taken, or the lowest free one is not on a device of n sectors. */
  ghost predicate NoRoom(bits: seq<bool>, n: nat) {
    forall k: nat :: FirstFree(bits, k) ==> 8 * k + 8 > n
  }

  /** Slot number slot, the lowest free one, takes d. */
  ghost predicate SlotTakes(bits: seq<bool>, disk: seq<Sector>, bits': seq<bool>, disk': seq<Sector>, slot: nat,
                            d: PageData)
  {
    && 1 <= slot && FirstFree(bits, slot - 1) && bits' == bits[slot - 1 := true]
    && OnlySlot(disk, disk', slot - 1) && SlotData(disk', slot - 1) == d
  }

  class SwapArea {
    const bitmap: Bitmap
    const device: Block

    ghost predicate Valid() { bitmap.Valid() }

    /** swap_init. */
    constructor (size: nat, device: Block)
      ensures Valid() && fresh(bitmap) && fresh(bitmap.bits) && this.device == device
      ensures bitmap.View() == seq(size, _ => false)
    {
      bitmap := new Bitmap(size);
      this.device := device;
    }

    /** The lowest free slot is marked. None stands for the kernel's panic, with every slot taken or the slot
        past the end of the device. */
    method Claim() returns (r: Option<nat>)
      requires Valid()
      modifies bitmap.bits
      ensures r.None? <==> NoRoom(old(bitmap.View()), |device.sectors|)
      ensures r.Some? ==> 8 * r.value + 8 <= |device.sectors| && FirstFree(old(bitmap.View()), r.value)
      ensures r.Some? ==> bitmap.View() == old(bitmap.View())[r.value := true]
    {
      ghost var bits := bitmap.View();
      r := bitmap.ScanAndFlip(0, 1, false);
      assert forall k :: 0 <= k < bitmap.bitCnt ==> (All(bits, k, 1, false) <==> !bits[k]);
      if r.None? {
        return;
      }
      assert All(bits, r.value, 1, false);
      assert FirstFree(bits, r.value);
      if 8 * r.value + 8 > |device.sectors| {
        return None;
      }
      assert bitmap.View() == bits[r.value := true];
    }

    /** swap_out: the lowest free slot takes the page. */
    method SwapOut(data: PageData) returns (r: Option<nat>)
      requires Valid()
      modifies bitmap.bits, device
      ensures |device.sectors| == |old(device.sectors)|
      ensures r.None? <==> NoRoom(old(bitmap.View()), |device.sectors|)
      ensures r.Some? ==>
        SlotTakes(old(bitmap.View()), old(device.sectors), bitmap.View(), device.sectors, r.value, data)
    {
      ghost var bits := bitmap.View();
      ghost var disk := device.sectors;
      var found := Claim();
      if found.None? {
        return None;
      }
      var k := found.value;
      hide NoRoom;
      var i := 0;
      while i < 8
        invariant i <= 8 && |device.sectors| == |disk| && bitmap.View() == bits[k := true]
        invariant forall s :: 0 <= s < |disk| && !(8 * k <= s < 8 * k + i) ==> device.sectors[s] == disk[s]
        invariant forall j :: 0 <= j < i ==> device.sectors[8 * k + j] == Part(data, j)
      {
        device.Write(8 * k + i, Part(data, i));
        i := i + 1;
      }
      PartsAreData(device.sectors, k, data);
      r := Some(k + 1);
    }

    /** swap_in: the slot's bytes, the slot being free again. */
    method SwapIn(slot: nat) returns (data: PageData)
      requires Valid() && 1 <= slot <= bitmap.bitCnt && 8 * slot <= |device.sectors|
      modifies bitmap.bits
      ensures data == SlotData(device.sectors, slot - 1)
      ensures bitmap.View() == old(bitmap.View())[slot - 1 := false]
    {
      var k := slot - 1;
      var buffer: seq<byte> := [];
      ghost var bits, d := bitmap.View(), SlotData(device.sectors, k);
      var i := 0;
      while i < 8
        invariant bitmap.View() == bits
        invariant i <= 8 && buffer == d[..SECTOR_SIZE * i]
      {
        DataInParts(device.sectors, k, i);
        var s := device.Read(8 * k + i);
        buffer := buffer + s;
        i := i + 1;
      }
      bitmap.SetMultiple(k, 1, false);
      assert bitmap.View() == bits[k := false];
      data := buffer;
    }
  }
}

/** Demand-paged pages and what a process believes they hold. */
module PagingState {
  import opened Basics
  import opened Bits
  import opened InodeIO
  import opened Swapping

  /** A user page of some process. */
  type Page = nat

  datatype Kind = Anon | Bin

  /** A supplemental page table entry; file is the content of the write-denied executable. */
  datatype Entry = Entry(kind: Kind, writable: bool, isLoaded: bool, file: seq<byte>, offset: nat, readBytes: nat,
                         slot: nat)

  /** frames: page tables; mem: contents of the user pool's frames; pool: the free ones; slots and disk:
      the swap area. */
  datatype State = State(entries: map<Page, Entry>, frames: map<Page, nat>, mem: map<nat, PageData>, pool: set<nat>,
                         dirty: set<Page>, slots: seq<bool>, disk: seq<Sector>)

  function ZeroPage(): PageData { seq(PAGE_SIZE, _ => 0) }

  /** load_file: the file's bytes followed by zeros, unless the file is too short. */
  function LoadFile(file: seq<byte>, offset: nat, readBytes: nat): Option<PageData> {
    if readBytes > PAGE_SIZE then None
    else if readBytes == 0 then Some(ZeroPage())
    else if offset + readBytes > |file| then None
    else Some(file[offset..offset + readBytes] + seq(PAGE_SIZE - readBytes, _ => 0))
  }

  function Image(e: Entry): Option<PageData> { LoadFile(e.file, e.offset, e.readBytes) }

  ghost predicate Swapped(st: State, p: Page) {
    p in st.entries && p !in st.frames && st.entries[p].kind == Anon
  }

  ghost predicate ResidentOk(st: State, data: map<Page, PageData>, p: Page)
    requires p in st.frames
  {
    && p in st.entries && p in data && st.entries[p].isLoaded
    && st.frames[p] in st.mem && st.frames[p] !in st.pool && st.mem[st.frames[p]] == data[p]
    && (st.entries[p].kind == Bin && p !in st.dirty ==> Image(st.entries[p]) == Some(data[p]))
  }

  /** A swapped page's slot is marked and holds its bytes. */
  ghost predicate SlotOk(st: State, data: map<Page, PageData>, p: Page)
    requires p in st.entries && p in data
  {
    var slot := st.entries[p].slot;
    && 1 <= slot <= |st.slots| && 8 * slot <= |st.disk|
    && st.slots[slot - 1] && SlotData(st.disk, slot - 1) == data[p]
  }

  ghost predicate AbsentOk(st: State, data: map<Page, PageData>, p: Page)
    requires p in st.entries
  {
    && p in data && !st.entries[p].isLoaded
    && match st.entries[p].kind
       case Anon => SlotOk(st, data, p)
       case Bin => Image(st.entries[p]).Some? ==> Image(st.entries[p]).value == data[p]
  }

  ghost predicate FramesApart(st: State) {
    forall p, q | p in st.frames && q in st.frames && p != q :: st.frames[p] != st.frames[q]
  }

  /** Swapped pages own distinct slots, and no other slot is marked. */
  ghost predicate SlotsOwned(st: State) {
    && (forall p, q | Swapped(st, p) && Swapped(st, q) && p != q :: st.entries[p].slot != st.entries[q].slot)
    && (forall k :: 0 <= k < |st.slots| && st.slots[k] ==> SlotUsed(st, k + 1))
  }

  ghost predicate SlotUsed(st: State, slot: nat) {
    exists p :: Swapped(st, p) && st.entries[p].slot == slot
  }

  ghost predicate Inv(st: State, data: map<Page, PageData>) {
    && st.entries.Keys == data.Keys && st.pool <= st.mem.Keys
    && Residents(st, data) && Absents(st, data) && FramesApart(st) && SlotsOwned(st)
  }

  ghost predicate Residents(st: State, data: map<Page, PageData>) {
    forall p | p in st.frames :: ResidentOk(st, data, p)
  }

  ghost predicate Absents(st: State, data: map<Page, PageData>) {
    forall p | p in st.entries && p !in st.frames :: AbsentOk(st, data, p)
  }

  // ----- Changing one page -----

  ghost predicate SameAt(st: State, n: State, q: Page) {
    && (q in n.entries <==> q in st.entries) && (q in n.frames <==> q in st.frames) && (q in n.dirty <==> q in st.dirty)
    && (q in st.entries && q in n.entries ==> n.entries[q] == st.entries[q])
    && (q in st.frames && q in n.frames ==> n.frames[q] == st.frames[q])
  }

  /** Only page p differs; the frames of others keep their bytes and stay out of the pool. */
  ghost predicate OnlyPage(st: State, n: State, p: Page) {
    && (forall q | q != p :: SameAt(st, n, q))
    && (forall q | q != p && q in st.frames :: FrameKept(st, n, st.frames[q]))
  }

  ghost predicate FrameKept(st: State, n: State, f: nat) {
    (f in st.mem ==> f in n.mem && n.mem[f] == st.mem[f]) && (f !in st.pool ==> f !in n.pool)
  }

  lemma ResidentsKept(st: State, n: State, data: map<Page, PageData>, p: Page, d: PageData)
    requires Residents(st, data) && OnlyPage(st, n, p)
    requires p in n.frames ==> ResidentOk(n, data[p := d], p)
    ensures Residents(n, data[p := d])
  {
    hide LoadFile;
    forall q | q in n.frames && q != p
      ensures ResidentOk(n, data[p := d], q)
    {
      assert SameAt(st, n, q);
      assert ResidentOk(st, data, q) && FrameKept(st, n, st.frames[q]);
    }
  }

  lemma AbsentsKept(st: State, n: State, data: map<Page, PageData>, p: Page, d: PageData)
    requires Absents(st, data) && OnlyPage(st, n, p)
    requires p in n.entries && p !in n.frames ==> AbsentOk(n, data[p := d], p)
    requires forall q | q in n.entries && Swapped(st, q) && q != p && q in data :: SlotOk(n, data, q)
    ensures Absents(n, data[p := d])
  {
    hide LoadFile, SlotData;
    forall q | q in n.entries && q !in n.frames && q != p
      ensures AbsentOk(n, data[p := d], q)
    {
      assert SameAt(st, n, q);
      assert AbsentOk(st, data, q);
    }
  }

  lemma FramesKept(st: State, n: State, p: Page)
    requires FramesApart(st) && OnlyPage(st, n, p)
    requires forall q | p in n.frames && q in st.frames && q != p :: st.frames[q] != n.frames[p]
    ensures FramesApart(n)
  {
    forall q, r | q in n.frames && r in n.frames && q != r
      ensures n.frames[q] != n.frames[r]
    {
      assert q != p ==> SameAt(st, n, q);
      assert r != p ==> SameAt(st, n, r);
    }
  }

  /** Slots of the other swapped pages, when only slot k's mark and bytes may change. */
  lemma SlotsKept(st: State, n: State, data: map<Page, PageData>, p: Page, k: nat)
    requires Absents(st, data) && OnlyPage(st, n, p) && |n.slots| == |st.slots|
    requires n.disk == st.disk || OnlySlot(st.disk, n.disk, k)
    requires forall j :: 0 <= j < |st.slots| && j != k ==> n.slots[j] == st.slots[j]
    requires forall q | Swapped(st, q) && q != p :: st.entries[q].slot != k + 1
    ensures forall q | q in n.entries && Swapped(st, q) && q != p && q in data :: SlotOk(n, data, q)
  {
    hide LoadFile;
    forall q | q in n.entries && Swapped(st, q) && q != p && q in data
      ensures SlotOk(n, data, q)
    {
      assert AbsentOk(st, data, q) && SameAt(st, n, q);
      if n.disk != st.disk {
        SlotKept(st.disk, n.disk, k, st.entries[q].slot - 1);
      }
    }
  }

  lemma OwnedKept(st: State, n: State, p: Page)
    requires SlotsOwned(st) && OnlyPage(st, n, p) && |n.slots| == |st.slots|
    requires Swapped(n, p) ==> n.entries[p].slot > 0
    requires Swapped(n, p) ==> forall q | Swapped(st, q) && q != p :: st.entries[q].slot != n.entries[p].slot
    requires forall j :: 0 <= j < |n.slots| && n.slots[j] ==>
      (Swapped(n, p) && n.entries[p].slot == j + 1) || (st.slots[j] && !(Swapped(st, p) && st.entries[p].slot == j + 1))
    ensures SlotsOwned(n)
  {
    forall q, r | Swapped(n, q) && Swapped(n, r) && q != r
      ensures n.entries[q].slot != n.entries[r].slot
    {
      assert q != p ==> SameAt(st, n, q) && Swapped(st, q);
      assert r != p ==> SameAt(st, n, r) && Swapped(st, r);
    }
    forall j | 0 <= j < |n.slots| && n.slots[j]
      ensures SlotUsed(n, j + 1)
    {
      if !(Swapped(n, p) && n.entries[p].slot == j + 1) {
        assert SlotUsed(st, j + 1);
        var q :| Swapped(st, q) && st.entries[q].slot == j + 1;
        assert SameAt(st, n, q) && Swapped(n, q);
      }
    }
  }

  // ----- Transitions -----

  /** Evicting page p means writing it to the swap area. */
  predicate NeedsSwap(st: State, p: Page) {
    p in st.entries && (st.entries[p].kind == Anon || p in st.dirty)
  }

  /** Page p goes to the lowest free slot, whose sectors alone change. */
  ghost predicate SwapsOut(st: State, n: State, p: Page)
    requires p in st.frames && p in st.entries && st.frames[p] in st.mem
  {
    exists k: nat ::
      FirstFree(st.slots, k) && OnlySlot(st.disk, n.disk, k) && SlotData(n.disk, k) == st.mem[st.frames[p]]
                     && n == SwappedOut(st, p, k, n.disk)
  }

  /** replacement_mem with victim p: through the swap area, or dropped if it is a clean file page. */
  ghost predicate Evicts(st: State, n: State, p: Page) {
    && p in st.frames && p in st.entries && st.frames[p] in st.mem
    && if NeedsSwap(st, p) then SwapsOut(st, n, p) else n == Unmapped(st, p, st.entries[p].(isLoaded := false))
  }

  lemma EvictsLoses(st: State, n: State, p: Page)
    requires Evicts(st, n, p)
    ensures Lost(st, n, p)
  {
  }

  /** Page p, and no other, has lost its frame to the pool. */
  ghost predicate Lost(st: State, n: State, p: Page) {
    && p in st.frames && n.frames == st.frames - {p} && n.pool == st.pool + {st.frames[p]}
    && n.entries.Keys == st.entries.Keys && forall q | q in st.entries && q != p :: n.entries[q] == st.entries[q]
  }

  lemma SwappedOutIs(st: State, p: Page, k: nat, disk: seq<Sector>, e: Entry)
    requires p in st.frames && p in st.entries && k < |st.slots|
    requires e == st.entries[p].(isLoaded := false, kind := Anon, slot := k + 1)
    ensures SwappedOut(st, p, k, disk) == State(st.entries[p := e], st.frames - {p}, st.mem, st.pool + {st.frames[p]},
                                                st.dirty, st.slots[k := true], disk)
  {
  }

  lemma AbsentData(st: State, data: map<Page, PageData>, p: Page)
    requires Inv(st, data) && p in st.entries && p !in st.frames
    ensures p in data
    ensures Image(st.entries[p]).Some? && st.entries[p].kind == Bin ==> Image(st.entries[p]).value == data[p]
    ensures st.entries[p].kind == Anon ==> SlotOk(st, data, p)
  {
    assert AbsentOk(st, data, p);
  }

  lemma FramesHaveEntries(st: State, data: map<Page, PageData>)
    requires Inv(st, data)
    ensures st.frames.Keys <= st.entries.Keys
  {
    forall p | p in st.frames
      ensures p in st.entries
    {
      assert ResidentOk(st, data, p);
    }
  }

  lemma ResidentEntry(st: State, data: map<Page, PageData>, p: Page)
    requires Inv(st, data) && p in st.frames
    ensures p in st.entries && p in data && st.frames[p] in st.mem && st.mem[st.frames[p]] == data[p]
  {
    assert ResidentOk(st, data, p);
  }

  /** Page p loses its frame. */
  ghost function Unmapped(st: State, p: Page, e: Entry): State
    requires p in st.frames
  {
    st.(entries := st.entries[p := e], frames := st.frames - {p}, pool := st.pool + {st.frames[p]})
  }

  lemma UnmappedOnly(st: State, data: map<Page, PageData>, p: Page, n: State)
    requires p in st.frames && FramesApart(st)
    requires n.frames == st.frames - {p} && n.mem == st.mem && n.dirty == st.dirty && n.pool == st.pool + {st.frames[p]}
    requires p in n.entries && p in st.entries && n.entries == st.entries[p := n.entries[p]]
    ensures OnlyPage(st, n, p)
  {
  }

  /** A clean file page is dropped. */
  lemma DropKeeps(st: State, data: map<Page, PageData>, p: Page)
    requires Inv(st, data) && p in st.frames && p in st.entries && st.entries[p].kind == Bin && p !in st.dirty
    ensures Inv(Unmapped(st, p, st.entries[p].(isLoaded := false)), data)
  {
    var n := Unmapped(st, p, st.entries[p].(isLoaded := false));
    assert ResidentOk(st, data, p);
    assert data == data[p := data[p]];
    UnmappedOnly(st, data, p, n);
    assert AbsentOk(n, data, p);
    hide Image, OnlyPage, Residents, Absents, FramesApart, SlotsOwned, ResidentOk, AbsentOk, SlotOk;
    ResidentsKept(st, n, data, p, data[p]);
    SlotsSame(st, n, data, p);
    AbsentsKept(st, n, data, p, data[p]);
    FramesKept(st, n, p);
    OwnedKept(st, n, p);
  }

  lemma SlotsSame(st: State, n: State, data: map<Page, PageData>, p: Page)
    requires Absents(st, data) && OnlyPage(st, n, p) && n.slots == st.slots && n.disk == st.disk
    ensures forall q | q in n.entries && Swapped(st, q) && q != p && q in data :: SlotOk(n, data, q)
  {
    forall q | q in n.entries && Swapped(st, q) && q != p && q in data
      ensures SlotOk(n, data, q)
    {
      assert AbsentOk(st, data, q) && SameAt(st, n, q);
    }
  }

  /** A page goes to slot k of the swap area, and is anonymous from then on. */
  ghost function SwappedOut(st: State, p: Page, k: nat, disk: seq<Sector>): State
    requires p in st.frames && p in st.entries && k < |st.slots|
  {
    var n := Unmapped(st, p, st.entries[p].(isLoaded := false, kind := Anon, slot := k + 1));
    n.(slots := st.slots[k := true], disk := disk)
  }

  /** A free slot is no swapped page's slot. */
  lemma FreeSlot(st: State, data: map<Page, PageData>, k: nat)
    requires Absents(st, data) && k < |st.slots| && !st.slots[k]
    ensures forall q | Swapped(st, q) :: st.entries[q].slot != k + 1
  {
    forall q | Swapped(st, q)
      ensures st.entries[q].slot != k + 1
    {
      assert AbsentOk(st, data, q);
    }
  }

  lemma SwapOutKeeps(st: State, data: map<Page, PageData>, p: Page, k: nat, disk: seq<Sector>)
    requires Inv(st, data) && p in st.frames && p in st.entries && k < |st.slots| && !st.slots[k]
    requires OnlySlot(st.disk, disk, k) && st.frames[p] in st.mem && SlotData(disk, k) == st.mem[st.frames[p]]
    ensures Inv(SwappedOut(st, p, k, disk), data)
  {
    var n := SwappedOut(st, p, k, disk);
    assert ResidentOk(st, data, p);
    assert data == data[p := data[p]];
    UnmappedOnly(st, data, p, n);
    assert AbsentOk(n, data, p);
    FreeSlot(st, data, k);
    hide Image, OnlyPage, Residents, Absents, FramesApart, SlotsOwned, ResidentOk, AbsentOk, SlotOk, OnlySlot;
    ResidentsKept(st, n, data, p, data[p]);
    SlotsKept(st, n, data, p, k);
    AbsentsKept(st, n, data, p, data[p]);
    FramesKept(st, n, p);
    OwnedKept(st, n, p);
  }

  /** Absent page p gets frame f with bytes d; a swapped page gives its slot back. */
  ghost function Installed(st: State, p: Page, f: nat, d: PageData): State
    requires p in st.entries && (st.entries[p].kind == Anon ==> 1 <= st.entries[p].slot <= |st.slots|)
  {
    var e := st.entries[p];
    st.(entries := st.entries[p := e.(isLoaded := true)], frames := st.frames[p := f], mem := st.mem[f := d],
        pool := st.pool - {f}, dirty := st.dirty - {p},
        slots := if e.kind == Anon then st.slots[e.slot - 1 := false] else st.slots)
  }

  /** No resident page uses a frame of the pool. */
  lemma PoolApart(st: State, data: map<Page, PageData>, f: nat)
    requires Residents(st, data) && f in st.pool
    ensures forall q | q in st.frames :: q in st.entries && st.frames[q] != f
  {
    forall q | q in st.frames
      ensures q in st.entries && st.frames[q] != f
    {
      assert ResidentOk(st, data, q);
    }
  }

  lemma InstallKeeps(st: State, data: map<Page, PageData>, p: Page, f: nat, d: PageData)
    requires Inv(st, data) && p in st.entries && p !in st.frames && f in st.pool && p in data && d == data[p]
    requires st.entries[p].kind == Bin ==> Image(st.entries[p]) == Some(d)
    ensures st.entries[p].kind == Anon ==> 1 <= st.entries[p].slot <= |st.slots|
    ensures Inv(Installed(st, p, f, d), data)
  {
    AbsentSlot(st, data, p);
    var n := Installed(st, p, f, d);
    assert data == data[p := d];
    InstalledPage(st, data, p, f, d);
    PoolApart(st, data, f);
    hide Image, OnlyPage, Residents, Absents, FramesApart, SlotsOwned, ResidentOk, AbsentOk, SlotOk;
    InstalledSlots(st, data, p, f, d);
    ResidentsKept(st, n, data, p, d);
    AbsentsKept(st, n, data, p, d);
    FramesKept(st, n, p);
    OwnedKept(st, n, p);
  }

  lemma InstalledSlots(st: State, data: map<Page, PageData>, p: Page, f: nat, d: PageData)
    requires Inv(st, data) && p in st.entries && p !in st.frames
    requires st.entries[p].kind == Anon ==> 1 <= st.entries[p].slot <= |st.slots|
    requires OnlyPage(st, Installed(st, p, f, d), p)
    ensures var n := Installed(st, p, f, d);
      forall q | q in n.entries && Swapped(st, q) && q != p && q in data :: SlotOk(n, data, q)
  {
    var n := Installed(st, p, f, d);
    SlotsDiffer(st, p);
    hide Image, OnlyPage, Residents, Absents, FramesApart, SlotsOwned, SlotOk;
    if st.entries[p].kind == Anon {
      SlotsKept(st, n, data, p, st.entries[p].slot - 1);
    } else {
      SlotsSame(st, n, data, p);
    }
  }

  lemma AbsentSlot(st: State, data: map<Page, PageData>, p: Page)
    requires Absents(st, data) && p in st.entries && p !in st.frames
    ensures st.entries[p].kind == Anon ==> 1 <= st.entries[p].slot <= |st.slots|
  {
    assert AbsentOk(st, data, p);
  }

  lemma SlotsDiffer(st: State, p: Page)
    requires SlotsOwned(st)
    ensures forall q | Swapped(st, q) && Swapped(st, p) && q != p :: st.entries[q].slot != st.entries[p].slot
  {
  }

  lemma InstalledPage(st: State, data: map<Page, PageData>, p: Page, f: nat, d: PageData)
    requires Residents(st, data) && p in st.entries && p !in st.frames && f in st.pool && p in data && d == data[p]
    requires st.entries[p].kind == Bin ==> Image(st.entries[p]) == Some(d)
    requires st.entries[p].kind == Anon ==> 1 <= st.entries[p].slot <= |st.slots|
    ensures OnlyPage(st, Installed(st, p, f, d), p) && ResidentOk(Installed(st, p, f, d), data, p)
  {
    PoolApart(st, data, f);
    hide LoadFile, Residents;
  }

  /** A store to a resident page. */
  ghost function Written(st: State, p: Page, d: PageData): State
    requires p in st.frames
  {
    st.(mem := st.mem[st.frames[p] := d], dirty := st.dirty + {p})
  }

  lemma StoreKeeps(st: State, data: map<Page, PageData>, p: Page, d: PageData)
    requires Inv(st, data) && p in st.frames
    ensures Inv(Written(st, p, d), data[p := d])
  {
    var n := Written(st, p, d);
    assert ResidentOk(st, data, p);
    assert OnlyPage(st, n, p);
    assert ResidentOk(n, data[p := d], p);
    hide LoadFile, OnlyPage, Residents, Absents, FramesApart, SlotsOwned, ResidentOk, AbsentOk, SlotOk;
    ResidentsKept(st, n, data, p, d);
    SlotsSame(st, n, data, p);
    AbsentsKept(st, n, data, p, d);
    assert FramesApart(n) by {
      FramesSame(st, n);
    }
    OwnedKept(st, n, p);
  }

  /** Page p, whose frame holds d in the end, is swapped out with the copy on disk: processes get d back if
      and only if the copy is d. */
  lemma SwappedIff(st: State, data: map<Page, PageData>, p: Page, k: nat, disk: seq<Sector>, d: PageData)
    requires Inv(st, data) && p in st.frames && p in st.entries && k < |st.slots| && !st.slots[k]
    requires OnlySlot(st.disk, disk, k)
    ensures Inv(SwappedOut(Written(st, p, d), p, k, disk), data[p := d]) <==> d == SlotData(disk, k)
  {
    var n := Written(st, p, d);
    var m := SwappedOut(n, p, k, disk);
    hide LoadFile, SlotData, FramesApart, SlotsOwned;
    if Inv(m, data[p := d]) {
      assert AbsentOk(m, data[p := d], p);
    }
    if d == SlotData(disk, k) {
      StoreKeeps(st, data, p, d);
      SwapOutKeeps(n, data[p := d], p, k, disk);
    }
  }

  /** A clean file page whose frame holds d in the end is dropped: processes get d back if and only if it is
      what the page held. */
  lemma DroppedIff(st: State, data: map<Page, PageData>, p: Page, d: PageData)
    requires Inv(st, data) && p in st.frames && p in st.entries
    requires p in data && st.entries[p].kind == Bin && p !in st.dirty
    ensures Inv(Unmapped(Written(st, p, d), p, st.entries[p].(isLoaded := false)), data[p := d]) <==> d == data[p]
  {
    var e := st.entries[p].(isLoaded := false);
    var m := Unmapped(Written(st, p, d), p, e);
    assert ResidentOk(st, data, p);
    hide LoadFile, SlotData, FramesApart, SlotsOwned;
    if Inv(m, data[p := d]) {
      assert AbsentOk(m, data[p := d], p);
    }
    if d == data[p] {
      UnchangedDrop(st, data, p);
      assert data[p := d] == data;
    }
  }

  lemma UnchangedDrop(st: State, data: map<Page, PageData>, p: Page)
    requires Inv(st, data) && p in st.frames && p in st.entries
    requires p in data && st.entries[p].kind == Bin && p !in st.dirty
    ensures Inv(Unmapped(Written(st, p, data[p]), p, st.entries[p].(isLoaded := false)), data)
  {
    var n := Unmapped(st, p, st.entries[p].(isLoaded := false));
    assert ResidentOk(st, data, p);
    hide Inv, LoadFile;
    DropKeeps(st, data, p);
    DirtyAbsent(n, data, p);
    assert Unmapped(Written(st, p, data[p]), p, st.entries[p].(isLoaded := false)) == n.(dirty := st.dirty + {p});
  }

  /** The dirty bit of an absent page does not matter. */
  lemma DirtyAbsent(st: State, data: map<Page, PageData>, p: Page)
    requires Inv(st, data) && p !in st.frames && p in data
    ensures Inv(st.(dirty := st.dirty + {p}), data)
  {
    var n := st.(dirty := st.dirty + {p});
    assert data == data[p := data[p]];
    assert OnlyPage(st, n, p);
    assert AbsentOk(st, data, p) && AbsentOk(n, data, p);
    hide LoadFile, OnlyPage, Residents, Absents, FramesApart, SlotsOwned, ResidentOk, AbsentOk, SlotOk;
    ResidentsKept(st, n, data, p, data[p]);
    SlotsSame(st, n, data, p);
    AbsentsKept(st, n, data, p, data[p]);
    assert FramesApart(n) by {
      FramesSame(st, n);
    }
    OwnedKept(st, n, p);
  }

  lemma FramesSame(st: State, n: State)
    requires FramesApart(st) && n.frames == st.frames
    ensures FramesApart(n)
  {
  }

  /** load_segment adds a file-backed page, absent at first. */
  lemma MapKeeps(st: State, data: map<Page, PageData>, p: Page, e: Entry, d: PageData)
    requires Inv(st, data) && p !in st.entries && e.kind == Bin && !e.isLoaded
    requires Image(e).Some? ==> Image(e).value == d
    ensures Inv(st.(entries := st.entries[p := e]), data[p := d])
  {
    var n := st.(entries := st.entries[p := e]);
    assert p !in st.frames by {
      assert p in st.frames ==> ResidentOk(st, data, p);
    }
    assert OnlyPage(st, n, p);
    assert AbsentOk(n, data[p := d], p);
    hide LoadFile, OnlyPage, Residents, Absents, FramesApart, SlotsOwned, ResidentOk, AbsentOk, SlotOk;
    ResidentsKept(st, n, data, p, d);
    SlotsSame(st, n, data, p);
    AbsentsKept(st, n, data, p, d);
    FramesSame(st, n);
    OwnedKept(st, n, p);
  }

  /** stack_grow and setup_stack add an anonymous zero page in frame f. */
  ghost function Grown(st: State, p: Page, f: nat): State {
    st.(entries := st.entries[p := Entry(Anon, true, true, [], 0, 0, 0)], frames := st.frames[p := f],
        mem := st.mem[f := ZeroPage()], pool := st.pool - {f}, dirty := st.dirty - {p})
  }

  lemma GrowKeeps(st: State, data: map<Page, PageData>, p: Page, f: nat)
    requires Inv(st, data) && p !in st.entries && f in st.pool
    ensures Inv(Grown(st, p, f), data[p := ZeroPage()])
  {
    var n, d := Grown(st, p, f), ZeroPage();
    PoolApart(st, data, f);
    GrownPage(st, data, p, f);
    hide OnlyPage, Residents, Absents, FramesApart, SlotsOwned, ResidentOk, AbsentOk, SlotOk, ZeroPage;
    ResidentsKept(st, n, data, p, d);
    SlotsSame(st, n, data, p);
    AbsentsKept(st, n, data, p, d);
    FramesKept(st, n, p);
    OwnedKept(st, n, p);
  }

  lemma GrownPage(st: State, data: map<Page, PageData>, p: Page, f: nat)
    requires Residents(st, data) && p !in st.entries && f in st.pool
    ensures OnlyPage(st, Grown(st, p, f), p) && ResidentOk(Grown(st, p, f), data[p := ZeroPage()], p)
  {
    PoolApart(st, data, f);
    hide LoadFile, Residents, ZeroPage;
  }
}

/** The fault path, eviction, and user loads and stores. */
module Paging {
  import opened Basics
  import opened Bits
  import opened Bitmaps
  import opened InodeIO
  import opened Swapping
  import opened PagingState
  import opened StoreRaces
  import C = ClockFrames

  datatype Op = Load(page: Page, i: nat) | Store(page: Page, i: nat, value: byte) | Evict
              | MapFile(page: Page, entry: Entry) | Grow(page: Page)

  /** What a mapped page holds at first; a page whose file is too short can never be read. */
  ghost function FirstBytes(e: Entry): PageData {
    if Image(e).Some? then Image(e).value else ZeroPage()
  }

  /** The pages' bytes after one step, as a process sees them: no frames, no swap, no eviction. */
  ghost function After(data: map<Page, PageData>, op: Op): map<Page, PageData> {
    match op
    case Store(p, i, v) => if p in data && i < PAGE_SIZE then data[p := data[p][i := v]] else data
    case MapFile(p, e) => if p !in data && e.kind == Bin && !e.isLoaded then data[p := FirstBytes(e)] else data
    case Grow(p) => if p !in data then data[p := ZeroPage()] else data
    case _ => data
  }

  ghost function AfterAll(data: map<Page, PageData>, ops: seq<Op>): map<Page, PageData> {
    if ops == [] then data else After(AfterAll(data, ops[..|ops| - 1]), ops[|ops| - 1])
  }

  /** The byte a step should return. */
  ghost function Answer(data: map<Page, PageData>, op: Op): Option<byte> {
    match op
    case Load(p, i) => if p in data && i < PAGE_SIZE then Some(data[p][i]) else None
    case _ => None
  }

  /** The bytes the loads should return. */
  ghost function Values(data: map<Page, PageData>, ops: seq<Op>): seq<byte> {
    if ops == [] then [] else
      var before := AfterAll(data, ops[..|ops| - 1]);
      var v := Answer(before, ops[|ops| - 1]);
      Values(data, ops[..|ops| - 1]) + (if v.Some? then [v.value] else [])
  }

  // ----- What a step does to the whole pager -----

  /** The pager's state with the frame list, the clock's hand and the accessed bits. */
  datatype Config = Config(st: State, pages: seq<Page>, hand: C.Hand, accessed: set<Page>)

  ghost predicate ClockOk(c: Config) { Distinct(c.pages) && C.HandOk(c.pages, c.hand) }

  ghost function Around(c: Config): seq<Page>
    requires ClockOk(c)
  {
    C.Ring(c.pages, c.hand)
  }

  /** The page the clock will choose. */
  ghost function Choice(c: Config): Page
    requires ClockOk(c)
  {
    if Around(c) == [] then 0 else C.Victim(Around(c), c.accessed)
  }

  /** The accessed bits left when the clock stops. */
  ghost function Cleared(c: Config): set<Page>
    requires ClockOk(c)
  {
    c.accessed - C.Members(Around(c)[..C.Passed(Around(c), c.accessed)])
  }

  /** Eviction panics: no page is resident, or the clock's choice needs swap room and there is none. */
  ghost predicate CannotEvict(c: Config)
    requires ClockOk(c)
  {
    c.pages == [] || (NeedsSwap(c.st, Choice(c)) && NoRoom(c.st.slots, |c.st.disk|))
  }

  /** No frame is free and none can be freed. */
  ghost predicate Stuck(c: Config)
    requires ClockOk(c)
  {
    c.st.pool == {} && CannotEvict(c)
  }

  /** One eviction. */
  ghost predicate Replaced(c: Config, d: Config) {
    && ClockOk(c) && Choice(c) in c.pages && Evicts(c.st, d.st, Choice(c))
    && d.pages == Without(c.pages, Choice(c)) && d.hand == C.HandAfter(c.pages, C.At(Choice(c)), Choice(c))
    && d.accessed == Cleared(c)
  }

  /** alloc_page: one eviction if no frame is free. */
  ghost predicate Allocated(c: Config, d: Config) {
    if c.st.pool != {} then d == c else Replaced(c, d)
  }

  /** What load_file or swap_in brings in for absent page p. */
  ghost function Content(st: State, p: Page): Option<PageData>
    requires p in st.entries
  {
    var e := st.entries[p];
    if e.kind == Bin then Image(e)
    else if 1 <= e.slot <= |st.slots| && 8 * e.slot <= |st.disk| then Some(SlotData(st.disk, e.slot - 1)) else None
  }

  ghost predicate InstalledAt(m: Config, p: Page, f: nat, d: Config) {
    && p in m.st.entries && p !in m.st.frames && f in m.st.pool && Content(m.st, p).Some?
    && d == Config(Installed(m.st, p, f, Content(m.st, p).value), m.pages + [p], m.hand, m.accessed - {p})
  }

  /** A page fault on absent page p. */
  ghost predicate Faulted(c: Config, p: Page, d: Config) {
    exists m: Config, f: nat :: Allocated(c, m) && InstalledAt(m, p, f, d)
  }

  /** The fault can be served: a frame is to be had, and the file is long enough. */
  ghost predicate CanFault(c: Config, p: Page)
    requires ClockOk(c) && p in c.st.entries
  {
    !Stuck(c) && (c.st.entries[p].kind == Bin ==> Image(c.st.entries[p]).Some?)
  }

  /** d is c once page p is resident. */
  ghost predicate Present(c: Config, p: Page, d: Config) {
    p in d.st.frames && if p in c.st.frames then d == c else Faulted(c, p, d)
  }

  ghost predicate Loads(c: Config, p: Page, d: Config) {
    exists m: Config :: Present(c, p, m) && d == m.(accessed := m.accessed + {p})
  }

  ghost predicate Stores(c: Config, p: Page, i: nat, v: byte, d: Config)
    requires i < PAGE_SIZE
  {
    exists m: Config :: Present(c, p, m) && StoresAt(m, p, i, v, d)
  }

  ghost predicate StoresAt(m: Config, p: Page, i: nat, v: byte, d: Config)
    requires i < PAGE_SIZE && p in m.st.frames
  {
    && m.st.frames[p] in m.st.mem
    && d == m.(st := Written(m.st, p, m.st.mem[m.st.frames[p]][i := v]), accessed := m.accessed + {p})
  }

  ghost predicate Grows(c: Config, p: Page, d: Config) {
    exists m: Config, f: nat :: Allocated(c, m) && GrownAt(m, p, f, d)
  }

  ghost predicate GrownAt(m: Config, p: Page, f: nat, d: Config) {
    f in m.st.pool && d == Config(Grown(m.st, p, f), m.pages + [p], m.hand, m.accessed - {p})
  }

  /** The step is one the model takes no action for: a page that does not exist, or already does. */
  predicate Void(st: State, op: Op) {
    match op
    case Load(p, i) => p !in st.entries || i >= PAGE_SIZE
    case Store(p, i, _) => p !in st.entries || i >= PAGE_SIZE
    case Evict => false
    case MapFile(p, e) => p in st.entries || e.kind != Bin || e.isLoaded
    case Grow(p) => p in st.entries
  }

  /** Exactly when a step ends the run, by a panic or by killing the process. */
  ghost predicate Fails(c: Config, op: Op)
    requires ClockOk(c)
  {
    !Void(c.st, op) && match op
      case Load(p, _) => p !in c.st.frames && !CanFault(c, p)
      case Store(p, _, _) => !c.st.entries[p].writable || (p !in c.st.frames && !CanFault(c, p))
      case Evict => CannotEvict(c)
      case MapFile(_, _) => false
      case Grow(_) => Stuck(c)
  }

  ghost predicate Next(c: Config, op: Op, d: Config) {
    if Void(c.st, op) then d == c else match op
      case Load(p, _) => Loads(c, p, d)
      case Store(p, i, v) => Stores(c, p, i, v, d)
      case Evict => Replaced(c, d)
      case MapFile(p, e) => d == c.(st := c.st.(entries := c.st.entries[p := e]))
      case Grow(p) => Grows(c, p, d)
  }

  /** states are the ones passed through by the first |states| - 1 steps, each in order with what the
      processes stored. */
  ghost predicate IsTrace(states: seq<Config>, ops: seq<Op>, data: map<Page, PageData>) {
    && 0 < |states| <= |ops| + 1
    && (forall i :: 0 <= i < |states| ==> ClockOk(states[i]) && Inv(states[i].st, AfterAll(data, ops[..i])))
    && (forall i :: 0 <= i < |states| - 1 ==> Next(states[i], ops[i], states[i + 1]) && !Fails(states[i], ops[i]))
  }

  lemma TraceStarts(c: Config, ops: seq<Op>, data: map<Page, PageData>)
    requires ClockOk(c) && Inv(c.st, data)
    ensures IsTrace([c], ops, data)
  {
    hide Inv, Next, Fails, ClockOk;
    assert ops[..0] == [];
  }

  lemma TraceGrows(states: seq<Config>, ops: seq<Op>, data: map<Page, PageData>, c: Config)
    requires IsTrace(states, ops, data) && |states| <= |ops| && ClockOk(states[|states| - 1])
    requires ClockOk(c) && Inv(c.st, AfterAll(data, ops[..|states|]))
    requires Next(states[|states| - 1], ops[|states| - 1], c) && !Fails(states[|states| - 1], ops[|states| - 1])
    ensures IsTrace(states + [c], ops, data)
  {
    hide Inv, Next, Fails, ClockOk, AfterAll;
  }

  // ----- What the steps do, in their own words -----

  /** Page p is the clock's victim, leaving accessed. */
  ghost predicate ClockPicks(c: Config, p: Page, accessed: set<Page>)
    requires ClockOk(c)
  {
    C.IsVictim(C.Ring(c.pages, c.hand), c.accessed, p, accessed)
  }

  /** Page p is in the swap area's way: its bytes are nowhere else. */
  predicate OnlyInMemory(st: State, p: Page) { p in st.entries && (st.entries[p].kind == Anon || p in st.dirty) }

  /** The pool is empty, and no page is resident or the clock's victim is only in memory and no slot can take it. */
  ghost predicate NoFrameToBeHad(c: Config)
    requires ClockOk(c)
  {
    && c.st.pool == {}
    && (c.pages == [] || exists p, accessed :: ClockPicks(c, p, accessed) && OnlyInMemory(c.st, p) && NoSlot(c.st))
  }

  /** The lowest free slot, if there is one, is not on the swap device. */
  ghost predicate NoSlot(st: State) {
    forall k: nat :: k < |st.slots| && !st.slots[k] && (forall j :: 0 <= j < k ==> st.slots[j]) ==>
      8 * k + 8 > |st.disk|
  }

  lemma NoSlotIs(st: State)
    ensures NoSlot(st) <==> NoRoom(st.slots, |st.disk|)
  {
    if NoSlot(st) {
      forall k: nat | FirstFree(st.slots, k)
        ensures 8 * k + 8 > |st.disk|
      {
      }
    } else {
      var k: nat :| k < |st.slots| && !st.slots[k] && (forall j :: 0 <= j < k ==> st.slots[j]) &&
        8 * k + 8 <= |st.disk|;
      assert FirstFree(st.slots, k);
    }
  }

  lemma ChoicePicked(c: Config)
    requires ClockOk(c) && c.pages != []
    ensures ClockPicks(c, Choice(c), Cleared(c))
    ensures forall p, accessed :: ClockPicks(c, p, accessed) ==> p == Choice(c) && accessed == Cleared(c)
  {
    C.RingSize(c.pages, c.hand);
    C.VictimExists(Around(c), c.accessed);
    hide C.Ring, C.Victim, C.Passed, C.IsVictim;
    forall p, accessed | ClockPicks(c, p, accessed)
      ensures p == Choice(c) && accessed == Cleared(c)
    {
      C.VictimIs(Around(c), c.accessed, p, accessed);
    }
  }

  lemma StuckIff(c: Config)
    requires ClockOk(c)
    ensures Stuck(c) <==> NoFrameToBeHad(c)
    ensures CannotEvict(c) <==> NoFrameToBeHad(c.(st := c.st.(pool := {})))
  {
    var e := c.(st := c.st.(pool := {}));
    NoSlotIs(c.st);
    if c.pages != [] {
      ChoicePicked(c);
      assert ClockPicks(e, Choice(c), Cleared(c)) && ClockPicks(c, Choice(c), Cleared(c));
      assert forall p, accessed :: ClockPicks(e, p, accessed) ==> ClockPicks(c, p, accessed);
    }
    hide C.Ring, NoRoom, ClockPicks, NoSlot, Choice;
    assert NoSlot(e.st) == NoSlot(c.st);
  }

  /** Exactly when each step ends the run. */
  lemma FailsIff(c: Config, op: Op)
    requires ClockOk(c)
    ensures Fails(c, op) <==> match op
      case Load(p, i) => p in c.st.entries && i < PAGE_SIZE && CannotBring(c, p)
      case Store(p, i, _) =>
        p in c.st.entries && i < PAGE_SIZE && (!c.st.entries[p].writable || CannotBring(c, p))
      case Evict => NoFrameToBeHad(c.(st := c.st.(pool := {})))
      case MapFile(_, _) => false
      case Grow(p) => p !in c.st.entries && NoFrameToBeHad(c)
  {
    StuckIff(c);
    hide C.Ring, NoFrameToBeHad, CannotEvict, Stuck, LoadFile;
  }

  /** Page p is absent, and no frame is to be had or its file is too short. */
  ghost predicate CannotBring(c: Config, p: Page)
    requires ClockOk(c) && p in c.st.entries
  {
    p !in c.st.frames && (NoFrameToBeHad(c) || (c.st.entries[p].kind == Bin && Image(c.st.entries[p]).None?))
  }

  /** No step takes a page away or changes whether it can be written. */
  lemma StepKeepsPage(c: Config, op: Op, d: Config, p: Page)
    requires Next(c, op, d) && p in c.st.entries
    ensures p in d.st.entries && d.st.entries[p].writable == c.st.entries[p].writable
    ensures c.st.entries[p].kind == Anon ==> d.st.entries[p].kind == Anon
  {
    hide C.Ring, LoadFile, Choice, Cleared, C.HandAfter, Without;
    match op {
      case Load(q, _) =>
        if !Void(c.st, op) {
          var m: Config :| Present(c, q, m) && d == m.(accessed := m.accessed + {q});
          PresentKeeps(c, q, m, p);
        }
      case Store(q, i, v) =>
        if !Void(c.st, op) {
          var m: Config :| Present(c, q, m) && StoresAt(m, q, i, v, d);
          PresentKeeps(c, q, m, p);
        }
      case Evict => EvictKeepsPage(c, d, p);
      case MapFile(_, _) =>
      case Grow(q) =>
        if !Void(c.st, op) {
          var m: Config, f: nat :| Allocated(c, m) && GrownAt(m, q, f, d);
          AllocatedKeepsPage(c, m, p);
        }
    }
  }

  lemma EvictKeepsPage(c: Config, d: Config, p: Page)
    requires Replaced(c, d) && p in c.st.entries
    ensures p in d.st.entries && d.st.entries[p].writable == c.st.entries[p].writable
    ensures c.st.entries[p].kind == Anon ==> d.st.entries[p].kind == Anon
  {
    hide C.Ring, Choice, Cleared, C.HandAfter, Without;
    EvictsLoses(c.st, d.st, Choice(c));
  }

  lemma AllocatedKeepsPage(c: Config, m: Config, p: Page)
    requires Allocated(c, m) && p in c.st.entries
    ensures p in m.st.entries && m.st.entries[p].writable == c.st.entries[p].writable
    ensures c.st.entries[p].kind == Anon ==> m.st.entries[p].kind == Anon
  {
    hide Replaced;
    if c.st.pool == {} {
      EvictKeepsPage(c, m, p);
    }
  }

  lemma PresentKeeps(c: Config, q: Page, m: Config, p: Page)
    requires Present(c, q, m) && p in c.st.entries
    ensures p in m.st.entries && m.st.entries[p].writable == c.st.entries[p].writable
    ensures c.st.entries[p].kind == Anon ==> m.st.entries[p].kind == Anon
  {
    hide Allocated, LoadFile;
    if q !in c.st.frames {
      var a: Config, f: nat :| Allocated(c, a) && InstalledAt(a, q, f, m);
      AllocatedKeepsPage(c, a, p);
    }
  }

  /** A page that grows the stack is resident, zero, writable and anonymous; one that is read or written is resident
      and marked, as dirty too if written. */
  lemma StepTouches(c: Config, op: Op, d: Config)
    requires Next(c, op, d) && !Void(c.st, op)
    ensures op.Grow? ==> op.page in d.st.frames && op.page in d.st.entries && op.page !in d.accessed
    ensures op.Grow? ==> d.st.entries[op.page].writable && d.st.entries[op.page].kind == Anon
    ensures op.Grow? ==> d.st.frames[op.page] in d.st.mem && d.st.mem[d.st.frames[op.page]] == seq(PAGE_SIZE, _ => 0)
    ensures op.MapFile? ==> op.page !in c.st.entries && op.page in d.st.entries && d.st.entries[op.page] == op.entry
    ensures op.Load? || op.Store? ==> op.page in d.st.frames && op.page in d.accessed
    ensures op.Store? ==> op.page in d.st.dirty
    ensures op.Load? && op.page !in c.st.frames ==> op.page !in d.st.dirty
  {
    hide Allocated, LoadFile, Content, Replaced;
    match op {
      case Load(p, _) =>
        var m: Config :| Present(c, p, m) && d == m.(accessed := m.accessed + {p});
        if p !in c.st.frames {
          var a: Config, f: nat :| Allocated(c, a) && InstalledAt(a, p, f, m);
        }
      case Store(p, i, v) =>
        var m: Config :| Present(c, p, m) && StoresAt(m, p, i, v, d);
      case Evict =>
      case MapFile(_, _) =>
      case Grow(p) =>
        var m: Config, f: nat :| Allocated(c, m) && GrownAt(m, p, f, d);
    }
  }

  /** Eviction takes the frame of the clock's victim and of no other page: a clean file page is dropped, any other goes
      whole to the lowest free slot. */
  lemma EvictEffect(c: Config, d: Config)
    requires ClockOk(c) && Next(c, Evict, d)
    ensures exists p ::
      ClockPicks(c, p, d.accessed) && p in c.st.frames && p in c.st.entries && EvictedAs(c.st, d.st, p)
  {
    var p := Choice(c);
    assert c.pages != [];
    ChoicePicked(c);
    hide C.Ring, ClockPicks, Choice, C.HandAfter, Without, SlotData;
    if NeedsSwap(c.st, p) {
      var k: nat :| FirstFree(c.st.slots, k) && OnlySlot(c.st.disk, d.st.disk, k) &&
        SlotData(d.st.disk, k) == c.st.mem[c.st.frames[p]] && d.st == SwappedOut(c.st, p, k, d.st.disk);
    }
    assert EvictedAs(c.st, d.st, p);
  }

  ghost predicate EvictedAs(st: State, n: State, p: Page)
    requires p in st.frames && p in st.entries
  {
    && n.frames == st.frames - {p} && n.pool == st.pool + {st.frames[p]} && n.mem == st.mem
    && p in n.entries && n.entries == st.entries[p := n.entries[p]] && !n.entries[p].isLoaded
    && if st.entries[p].kind == Bin && p !in st.dirty
       then n.entries[p].kind == Bin && n.slots == st.slots && n.disk == st.disk
       else
         var k := n.entries[p].slot - 1;
         && n.entries[p].kind == Anon && 0 <= k < |st.slots| && 8 * k + 8 <= |n.disk| && st.frames[p] in st.mem
         && !st.slots[k] && (forall j :: 0 <= j < k ==> st.slots[j]) && n.slots == st.slots[k := true]
         && SlotData(n.disk, k) == st.mem[st.frames[p]]
  }

  /** On any run, a page keeps its entry and its permission. */
  lemma {:induction false} TraceKeepsPage(states: seq<Config>, ops: seq<Op>, data: map<Page, PageData>, i: nat, k: nat,
                                          p: Page)
    requires IsTrace(states, ops, data) && i <= k < |states| && p in states[i].st.entries
    ensures p in states[k].st.entries && states[k].st.entries[p].writable == states[i].st.entries[p].writable
    ensures states[i].st.entries[p].kind == Anon ==> states[k].st.entries[p].kind == Anon
  {
    hide *;
    if i < k {
      TraceKeepsPage(states, ops, data, i, k - 1, p);
      TraceStep(states, ops, data, k - 1);
      StepKeepsPage(states[k - 1], ops[k - 1], states[k], p);
    }
  }

  lemma TraceStep(states: seq<Config>, ops: seq<Op>, data: map<Page, PageData>, i: nat)
    requires IsTrace(states, ops, data) && i + 1 < |states|
    ensures i < |ops| && Next(states[i], ops[i], states[i + 1]) && ClockOk(states[i]) && ClockOk(states[i + 1])
  {
    hide Inv, Next, Fails;
  }

  /** Once a stack page has grown, no load from it or store to it fails, unless it is absent and no frame is to be
      had. */
  lemma StackWorks(states: seq<Config>, ops: seq<Op>, data: map<Page, PageData>, i: nat, k: nat, p: Page, op: Op)
    requires IsTrace(states, ops, data) && i < k < |states| && ops[i] == Grow(p) && p !in states[i].st.entries
    requires (op.Load? || op.Store?) && op.page == p
    ensures ClockOk(states[k]) && (Fails(states[k], op) ==> p !in states[k].st.frames && NoFrameToBeHad(states[k]))
  {
    TraceStep(states, ops, data, i);
    TraceStep(states, ops, data, k - 1);
    hide Inv, Next, Fails, IsTrace;
    StepTouches(states[i], ops[i], states[i + 1]);
    TraceKeepsPage(states, ops, data, i + 1, k, p);
    FailsIff(states[k], op);
  }

  /** The clock's answer is the choice. */
  lemma ChoiceIs(c: Config, p: Page, accessed: set<Page>)
    requires ClockOk(c) && C.IsVictim(C.Ring(c.pages, c.hand), c.accessed, p, accessed) && p in c.pages
    ensures p == Choice(c) && accessed == Cleared(c)
  {
    C.VictimIs(Around(c), c.accessed, p, accessed);
  }

  lemma ReplacedIs(c: Config, d: Config)
    requires ClockOk(c) && Choice(c) in c.pages && Evicts(c.st, d.st, Choice(c))
    requires d.pages == Without(c.pages, Choice(c)) && d.hand == C.HandAfter(c.pages, C.At(Choice(c)), Choice(c))
    requires d.accessed == Cleared(c)
    ensures Replaced(c, d)
  {
  }

  lemma ReplacedFrees(c: Config, d: Config)
    requires Replaced(c, d)
    ensures d.st.pool != {}
  {
    hide C.Ring, Evicts;
    EvictsLoses(c.st, d.st, Choice(c));
    assert c.st.frames[Choice(c)] in d.st.pool;
  }

  /** Making room leaves an absent page's entry alone. */
  lemma AllocatedKeeps(c: Config, m: Config, p: Page)
    requires Allocated(c, m)
    ensures m.st.entries.Keys == c.st.entries.Keys
    ensures p in c.st.entries && p !in c.st.frames ==> p !in m.st.frames && m.st.entries[p] == c.st.entries[p]
  {
    hide Evicts, C.Ring;
    if c.st.pool == {} {
      EvictsLoses(c.st, m.st, Choice(c));
    }
  }

  // ----- A segment of an executable -----

  datatype Source = Source(file: seq<byte>, ofs: nat, read: nat, writable: bool)

  /** A segment in memory: read bytes of the file from ofs on, then zeros. */
  function Segment(file: seq<byte>, ofs: nat, read: nat, zero: nat): seq<byte>
    requires ofs + read <= |file|
  {
    file[ofs..ofs + read] + seq(zero, _ => 0)
  }

  /** How many bytes of the file go into page k. */
  function PageRead(read: nat, k: nat): nat {
    if read <= PAGE_SIZE * k then 0 else if read - PAGE_SIZE * k < PAGE_SIZE then read - PAGE_SIZE * k else PAGE_SIZE
  }

  function Reached(read: nat, k: nat): nat { if read < PAGE_SIZE * k then read else PAGE_SIZE * k }

  /** The entry of a segment's page k. */
  function SegmentEntry(src: Source, k: nat): Entry {
    Entry(Bin, src.writable, false, src.file, src.ofs + Reached(src.read, k), PageRead(src.read, k), 0)
  }

  /** What is left to map of readBytes and zeroBytes after k pages. */
  ghost predicate Left(readBytes: nat, zeroBytes: nat, k: nat, read: int, zero: int) {
    && read == readBytes - Reached(readBytes, k) && zero >= 0
    && read + zero == readBytes + zeroBytes - PAGE_SIZE * k
  }

  lemma LeftNext(readBytes: nat, zeroBytes: nat, k: nat, read: nat, zero: nat)
    requires Left(readBytes, zeroBytes, k, read, zero) && (read > 0 || zero > 0)
    requires (readBytes + zeroBytes) % PAGE_SIZE == 0
    ensures var r := if read < PAGE_SIZE then read else PAGE_SIZE;
      && r == PageRead(readBytes, k) && zero >= PAGE_SIZE - r && PAGE_SIZE > 0
      && Reached(readBytes, k + 1) == Reached(readBytes, k) + r
      && Left(readBytes, zeroBytes, k + 1, read - r, zero - (PAGE_SIZE - r))
    ensures k < (readBytes + zeroBytes) / PAGE_SIZE
  {
  }

  lemma LeftNone(readBytes: nat, zeroBytes: nat, k: nat)
    requires Left(readBytes, zeroBytes, k, 0, 0)
    ensures k == (readBytes + zeroBytes) / PAGE_SIZE
  {
  }

  lemma EntryIs(src: Source, k: nat)
    ensures SegmentEntry(src, k) ==
      Entry(Bin, src.writable, false, src.file, src.ofs + Reached(src.read, k), PageRead(src.read, k), 0)
  {
  }

  /** A page of a segment is its slice of the segment; a page the file is too short for cannot be loaded. */
  lemma SegmentPage(file: seq<byte>, ofs: nat, read: nat, zero: nat, writable: bool, k: nat)
    requires PAGE_SIZE * k + PAGE_SIZE <= read + zero
    ensures var e := SegmentEntry(Source(file, ofs, read, writable), k);
      && e.kind == Bin && e.writable == writable && !e.isLoaded
      && (Image(e).None? <==> PAGE_SIZE * k < read && ofs + PAGE_SIZE * k + PageRead(read, k) > |file|)
      && (ofs + read <= |file| ==>
            Image(e) == Some(Segment(file, ofs, read, zero)[PAGE_SIZE * k..PAGE_SIZE * k + PAGE_SIZE]))
  {
    var e := SegmentEntry(Source(file, ofs, read, writable), k);
    if ofs + read <= |file| {
      SegmentSlice(file, ofs, read, zero, k);
    }
  }

  lemma SegmentSlice(file: seq<byte>, ofs: nat, read: nat, zero: nat, k: nat)
    requires PAGE_SIZE * k + PAGE_SIZE <= read + zero && ofs + read <= |file|
    ensures var a, r := ofs + Reached(read, k), PageRead(read, k);
      LoadFile(file, a, r) == Some(Segment(file, ofs, read, zero)[PAGE_SIZE * k..PAGE_SIZE * k + PAGE_SIZE])
  {
    var a, r, g := ofs + Reached(read, k), PageRead(read, k), PAGE_SIZE * k;
    var seg := Segment(file, ofs, read, zero);
    var page := LoadFile(file, a, r).value;
    forall i | 0 <= i < PAGE_SIZE
      ensures page[i] == seg[g + i]
    {
      if i < r {
        assert seg[g + i] == file[ofs + g + i] == file[a + i];
      } else {
        assert seg[g + i] == 0;
      }
    }
    assert page == seg[g..g + PAGE_SIZE];
  }

  /** Page p has entry e and its bytes, unless it had an entry. */
  ghost predicate MappedAs(before: map<Page, Entry>, after: map<Page, Entry>, data: map<Page, PageData>, p: Page,
                           e: Entry)
  {
    && p in after
    && if p in before then after[p] == before[p] else after[p] == e && p in data && data[p] == FirstBytes(e)
  }

  /** The first k pages of the segment are mapped, and nothing else changed. */
  ghost predicate SegmentMapped(before: map<Page, Entry>, after: map<Page, Entry>, was: map<Page, PageData>,
                                data: map<Page, PageData>,
                                first: Page, src: Source, k: nat) {
    && (forall j: nat :: j < k ==> MappedAs(before, after, data, first + j, SegmentEntry(src, j)))
    && (forall q :: q in after <==> q in before || first <= q < first + k)
    && (forall q | q in before :: q in after && after[q] == before[q])
    && (forall q | q in was :: q in before && q in data && data[q] == was[q])
  }

  lemma MapStart(entries: map<Page, Entry>, data: map<Page, PageData>, first: Page, src: Source, zeroBytes: nat)
    requires entries.Keys == data.Keys
    ensures SegmentMapped(entries, entries, data, data, first, src, 0)
    ensures Left(src.read, zeroBytes, 0, src.read, zeroBytes) && Reached(src.read, 0) == 0
  {
  }

  lemma MapNext(before: map<Page, Entry>, after: map<Page, Entry>, was: map<Page, PageData>, data: map<Page, PageData>,
                first: Page, src: Source, k: nat)
    requires SegmentMapped(before, after, was, data, first, src, k)
    ensures var p, e := first + k, SegmentEntry(src, k);
      if p in after then SegmentMapped(before, after, was, data, first, src, k + 1)
      else SegmentMapped(before, after[p := e], was, data[p := FirstBytes(e)], first, src, k + 1)
  {
    hide FirstBytes;
  }

  /** What a process stores to page p while it is evicted survives: no byte is changed after its sector's
      copy or, on a page that is dropped, after the dirty bit was read. */
  ghost predicate Survives(st: State, p: Page, d: PageData, gaps: seq<seq<StoreRaces.Store>>)
    requires |gaps| == 9 && p in st.entries
  {
    if NeedsSwap(st, p) then Kept(d, gaps) else forall i :: 0 <= i < PAGE_SIZE ==> Harmless(d, Flat(gaps), i)
  }

  ghost function Raced(st: State, p: Page, stores: seq<StoreRaces.Store>): State
    requires p in st.frames && st.frames[p] in st.mem
  {
    var f := st.frames[p];
    st.(mem := st.mem[f := Apply(st.mem[f], stores)], dirty := if stores == [] then st.dirty else st.dirty + {p})
  }

  /** Swapped out amid stores, a page reads back right if and only if no byte changed after its copy. */
  lemma SwappedAmid(st: State, data: map<Page, PageData>, p: Page, k: nat, disk: seq<Sector>,
                    gaps: seq<seq<StoreRaces.Store>>)
    requires Inv(st, data) && p in st.frames && p in st.entries && p in data && k < |st.slots| && !st.slots[k]
    requires st.frames[p] in st.mem && st.mem[st.frames[p]] == data[p]
    requires OnlySlot(st.disk, disk, k) && |gaps| == 9 && Copied(data[p], gaps, SlotData(disk, k))
    ensures Inv(SwappedOut(Raced(st, p, Flat(gaps)), p, k, disk), data[p := Apply(data[p], Flat(gaps))]) <==>
      Kept(data[p], gaps)
    ensures var n := SwappedOut(Raced(st, p, Flat(gaps)), p, k, disk);
      p in n.entries && (Content(n, p) == Some(Apply(data[p], Flat(gaps))) <==> Kept(data[p], gaps))
  {
    hide Inv, SlotData, Flat, Apply, Kept, Copied;
    var d := Apply(data[p], Flat(gaps));
    CopyIsPage(data[p], gaps, SlotData(disk, k));
    if Flat(gaps) == [] {
      NoRace(data[p], gaps);
      SwapOutKeeps(st, data, p, k, disk);
      assert data[p := d] == data && Raced(st, p, Flat(gaps)) == st;
    } else {
      SwappedIff(st, data, p, k, disk, d);
      assert Raced(st, p, Flat(gaps)) == Written(st, p, d);
    }
  }

  /** A clean file page holds what the file gives. */
  lemma CleanImage(st: State, data: map<Page, PageData>, p: Page)
    requires Inv(st, data) && p in st.frames && p in st.entries
    requires p in data && st.entries[p].kind == Bin && p !in st.dirty
    ensures Image(st.entries[p]) == Some(data[p])
  {
    assert ResidentOk(st, data, p);
  }

  lemma DroppedAmid(st: State, data: map<Page, PageData>, p: Page, stores: seq<StoreRaces.Store>)
    requires Inv(st, data) && p in st.frames && p in st.entries
    requires p in data && st.entries[p].kind == Bin && p !in st.dirty
    requires st.frames[p] in st.mem && st.mem[st.frames[p]] == data[p]
    ensures Inv(Unmapped(Raced(st, p, stores), p, st.entries[p].(isLoaded := false)), data[p := Apply(data[p], stores)])
            <==> forall i :: 0 <= i < PAGE_SIZE ==> Harmless(data[p], stores, i)
    ensures var n := Unmapped(Raced(st, p, stores), p, st.entries[p].(isLoaded := false));
      && p in n.entries
      && (Content(n, p) == Some(Apply(data[p], stores)) <==>
            forall i :: 0 <= i < PAGE_SIZE ==> Harmless(data[p], stores, i))
  {
    CleanImage(st, data, p);
    hide Inv, Apply, Harmless, LoadFile;
    var d := Apply(data[p], stores);
    UnchangedIff(data[p], stores);
    if stores == [] {
      ApplyNone(data[p]);
      DropKeeps(st, data, p);
      assert data[p := d] == data && Raced(st, p, stores) == st;
    } else {
      DroppedIff(st, data, p, d);
      assert Raced(st, p, stores) == Written(st, p, d);
    }
  }

  class Vm {
    var entries: map<Page, Entry>
    var frames: map<Page, nat>
    var mem: map<nat, PageData>
    var pool: set<nat>
    var dirty: set<Page>
    ghost var data: map<Page, PageData>
    const clock: C.Clock
    const swap: SwapArea

    ghost function St(): State
      requires swap.Valid()
      reads this, swap.bitmap.bits, swap.device
    {
      State(entries, frames, mem, pool, dirty, swap.bitmap.View(), swap.device.sectors)
    }

    ghost function Cfg(): Config
      requires swap.Valid()
      reads this, clock, swap.bitmap.bits, swap.device
    {
      Config(St(), clock.pages, clock.hand, clock.accessed)
    }

    /** data is what the processes last stored; the frame list holds exactly the resident pages. */
    ghost predicate Valid()
      reads this, clock, swap.bitmap.bits, swap.device
    {
      && swap.Valid() && clock.Valid() && Inv(St(), data)
      && forall p :: p in clock.pages <==> p in frames
    }

    constructor (poolFrames: set<nat>, contents: map<nat, PageData>, slots: nat, device: Block)
      requires poolFrames <= contents.Keys
      ensures Valid() && data == map[] && pool == poolFrames && fresh(clock) && fresh(swap) && swap.device == device
    {
      entries, frames, dirty := map[], map[], {};
      mem, pool := contents, poolFrames;
      data := map[];
      clock := new C.Clock();
      swap := new SwapArea(slots, device);
    }

    /** The end of replacement_mem: page p's entry changes, and its frame goes back to the pool. */
    method SetEntry(p: Page, e: Entry)
      requires p in frames
      modifies this`entries, this`frames, this`pool
      ensures entries == old(entries)[p := e] && frames == old(frames) - {p} && pool == old(pool) + {old(frames)[p]}
    {
      entries := entries[p := e];
      pool := pool + {frames[p]};
      frames := frames - {p};
    }

    /** A page goes to the swap area. */
    method SwapPage(p: Page) returns (ok: bool)
      requires swap.Valid() && p in frames && p in entries && Inv(St(), data)
      modifies this`entries, this`frames, this`pool, swap.bitmap.bits, swap.device
      ensures p in old(frames) && p in old(entries) && old(frames)[p] in mem
      ensures !ok <==> NoRoom(old(St()).slots, |old(St()).disk|)
      ensures ok ==> Inv(St(), data) && SwapsOut(old(St()), St(), p) && frames == old(frames) - {p}
    {
      ghost var st := St();
      hide Inv, NoRoom, SlotTakes, Bit, SwapsOut;
      ResidentEntry(st, data, p);
      var r := swap.SwapOut(mem[frames[p]]);
      if r.None? {
        return false;
      }
      Record(p, r.value, st);
      ok := true;
    }

    /** The page's entry after swap_out, from state st before it. */
    method Record(p: Page, slot: nat, ghost st: State)
      requires swap.Valid() && p in frames && p in entries && frames[p] in mem && Inv(st, data)
      requires St() == st.(slots := St().slots, disk := St().disk)
      requires SlotTakes(st.slots, st.disk, St().slots, St().disk, slot, mem[frames[p]])
      modifies this`entries, this`frames, this`pool
      ensures p in st.frames && p in st.entries && st.frames[p] in st.mem
      ensures Inv(St(), data) && SwapsOut(st, St(), p) && frames == old(frames) - {p}
    {
      ghost var disk := swap.device.sectors;
      var e := entries[p].(isLoaded := false, kind := Anon, slot := slot);
      hide Inv, NoRoom, OnlySlot, SlotData, Bit;
      SwapOutKeeps(st, data, p, slot - 1, disk);
      SwappedOutIs(st, p, slot - 1, disk, e);
      hide SwappedOut;
      SetEntry(p, e);
      assert St() == SwappedOut(st, p, slot - 1, disk);
    }

    /** A clean file page is dropped. */
    method DropPage(p: Page)
      requires swap.Valid() && p in frames && p in entries && entries[p].kind == Bin && p !in dirty && Inv(St(), data)
      modifies this`entries, this`frames, this`pool
      ensures Inv(St(), data) && frames == old(frames) - {p}
      ensures St() == Unmapped(old(St()), p, old(entries)[p].(isLoaded := false))
    {
      ghost var st := St();
      hide Inv, LoadFile;
      DropKeeps(st, data, p);
      SetEntry(p, entries[p].(isLoaded := false));
      assert St() == Unmapped(st, p, st.entries[p].(isLoaded := false));
    }

    /** replacement_mem after the choice of its victim. */
    method Unmap(p: Page) returns (ok: bool)
      requires swap.Valid() && p in frames && Inv(St(), data)
      modifies this`entries, this`frames, this`pool, swap.bitmap.bits, swap.device
      ensures !ok <==> NeedsSwap(old(St()), p) && NoRoom(old(St()).slots, |old(St()).disk|)
      ensures ok ==> Inv(St(), data) && Evicts(old(St()), St(), p) && frames == old(frames) - {p}
    {
      hide Inv, NoRoom, Bit, SwapsOut, Unmapped;
      ResidentEntry(St(), data, p);
      if entries[p].kind == Anon || p in dirty {
        ok := SwapPage(p);
      } else {
        DropPage(p);
        ok := true;
      }
    }

    /** Stores to resident page p by the process that owns it. */
    method StoreAll(p: Page, stores: seq<StoreRaces.Store>)
      requires p in frames && frames[p] in mem && p in data
      modifies this`mem, this`dirty, this`data
      ensures mem == old(mem)[frames[p] := Apply(old(mem)[frames[p]], stores)]
      ensures data == old(data)[p := Apply(old(data)[p], stores)]
      ensures dirty == if stores == [] then old(dirty) else old(dirty) + {p}
    {
      var i := 0;
      assert stores[..0] == [];
      while i < |stores|
        invariant i <= |stores|
        invariant mem == old(mem)[frames[p] := Apply(old(mem)[frames[p]], stores[..i])]
        invariant data == old(data)[p := Apply(old(data)[p], stores[..i])]
        invariant dirty == if i == 0 then old(dirty) else old(dirty) + {p}
      {
        var s := stores[i];
        assert stores[..i + 1][..i] == stores[..i];
        mem := mem[frames[p] := mem[frames[p]][s.offset := s.value]];
        data := data[p := data[p][s.offset := s.value]];
        dirty := dirty + {p};
        i := i + 1;
      }
      assert stores[..i] == stores;
    }

    /** The loop of swap_out, with stores to page p before and after each sector's copy. */
    method CopyAmid(p: Page, k: nat, gaps: seq<seq<StoreRaces.Store>>)
      requires p in frames && frames[p] in mem && p in data && mem[frames[p]] == data[p]
      requires |gaps| == 9 && 8 * k + 8 <= |swap.device.sectors|
      modifies this`mem, this`dirty, this`data, swap.device
      ensures OnlySlot(old(swap.device.sectors), swap.device.sectors, k)
      ensures Copied(old(data)[p], gaps, SlotData(swap.device.sectors, k))
      ensures mem == old(mem)[frames[p] := Apply(old(data)[p], Flat(gaps))]
      ensures data == old(data)[p := Apply(old(data)[p], Flat(gaps))]
      ensures dirty == if Flat(gaps) == [] then old(dirty) else old(dirty) + {p}
    {
      ghost var disk, d0 := swap.device.sectors, data[p];
      hide *;
      CopyStart(disk, k, d0, gaps);
      StoreAll(p, gaps[0]);
      var i := 0;
      while i < 8
        invariant i <= 8 && |swap.device.sectors| == |disk| && CopiedTo(disk, swap.device.sectors, k, d0, gaps, i)
        invariant mem == old(mem)[frames[p] := Before(d0, gaps, i)]
        invariant data == old(data)[p := Before(d0, gaps, i)]
        invariant dirty == if Flat(gaps[..i + 1]) == [] then old(dirty) else old(dirty) + {p}
      {
        CopyNext(disk, swap.device.sectors, k, d0, gaps, i);
        swap.device.Write(8 * k + i, Part(mem[frames[p]], i));
        NextGap(d0, gaps, i);
        UpdateTwice(old(mem), frames[p], Before(d0, gaps, i), Before(d0, gaps, i + 1));
        UpdateTwice(old(data), p, Before(d0, gaps, i), Before(d0, gaps, i + 1));
        i := i + 1;
        StoreAll(p, gaps[i]);
      }
      CopyDone(disk, swap.device.sectors, k, d0, gaps);
    }

    /** replacement_mem after the choice of its victim p, with stores to p in between its steps: gaps[0] after
        the dirty bit is read, gaps[j] after the copy of sector j - 1, and gaps[8] before p is unmapped. */
    method UnmapAmid(p: Page, gaps: seq<seq<StoreRaces.Store>>) returns (ok: bool)
      requires swap.Valid() && p in frames && Inv(St(), data) && |gaps| == 9
      modifies this`entries, this`frames, this`pool, this`mem, this`dirty, this`data, swap.bitmap.bits, swap.device
      ensures p in old(entries) && p in old(data)
      ensures !ok <==> NeedsSwap(old(St()), p) && NoRoom(old(St()).slots, |old(St()).disk|)
      ensures ok ==> frames == old(frames) - {p} && data == old(data)[p := Apply(old(data)[p], Flat(gaps))]
      ensures ok ==> (Inv(St(), data) <==> Survives(old(St()), p, old(data)[p], gaps))
      ensures ok ==> p in entries && p in data
      ensures ok ==> (Content(St(), p) == Some(data[p]) <==> Survives(old(St()), p, old(data)[p], gaps))
    {
      hide Inv, NoRoom, Bit, OnlySlot, SlotData, FirstFree, Flat, Apply, Kept, Harmless, Copied, Content;
      ResidentEntry(St(), data, p);
      if entries[p].kind == Anon || p in dirty {
        ok := SwapAmid(p, gaps);
      } else {
        DropAmid(p, gaps);
        ok := true;
      }
    }

    method SwapAmid(p: Page, gaps: seq<seq<StoreRaces.Store>>) returns (ok: bool)
      requires swap.Valid() && p in frames && p in entries && Inv(St(), data) && |gaps| == 9
      modifies this`entries, this`frames, this`pool, this`mem, this`dirty, this`data, swap.bitmap.bits, swap.device
      ensures p in old(data)
      ensures !ok <==> NoRoom(old(St()).slots, |old(St()).disk|)
      ensures ok ==> frames == old(frames) - {p} && data == old(data)[p := Apply(old(data)[p], Flat(gaps))]
      ensures ok ==> (Inv(St(), data) <==> Kept(old(data)[p], gaps))
      ensures ok ==> p in entries && p in data && (Content(St(), p) == Some(data[p]) <==> Kept(old(data)[p], gaps))
    {
      ghost var st, d0 := St(), data;
      hide Inv, NoRoom, Bit, OnlySlot, SlotData, Flat, Apply, Kept, Harmless, Copied, Content;
      ResidentEntry(st, data, p);
      var r := swap.Claim();
      if r.None? {
        return false;
      }
      var k := r.value;
      assert St() == st.(slots := st.slots[k := true]);
      CopyAmid(p, k, gaps);
      assert St() == Raced(st, p, Flat(gaps)).(slots := st.slots[k := true], disk := swap.device.sectors);
      hide St;
      RecordAmid(p, k, gaps, st, d0);
      ok := true;
    }

    /** The page's entry after swap_out, from state st and bytes d0 before it. */
    method RecordAmid(p: Page, k: nat, gaps: seq<seq<StoreRaces.Store>>, ghost st: State, ghost d0: map<Page, PageData>)
      requires swap.Valid() && p in frames && p in entries && |gaps| == 9 && Inv(st, d0) && p in d0
      requires p in st.frames && st.frames[p] in st.mem
      requires st.mem[st.frames[p]] == d0[p] && k < |st.slots| && !st.slots[k]
      requires St() == Raced(st, p, Flat(gaps)).(slots := st.slots[k := true], disk := swap.device.sectors)
      requires OnlySlot(st.disk, swap.device.sectors, k) && Copied(d0[p], gaps, SlotData(swap.device.sectors, k))
      modifies this`entries, this`frames, this`pool
      ensures frames == old(frames) - {p}
      ensures Inv(St(), d0[p := Apply(d0[p], Flat(gaps))]) <==> Kept(d0[p], gaps)
      ensures p in entries && (Content(St(), p) == Some(Apply(d0[p], Flat(gaps))) <==> Kept(d0[p], gaps))
    {
      hide Inv, NoRoom, Bit, SlotData, Flat, Apply, Kept, Harmless, Copied, Content;
      SetEntry(p, entries[p].(isLoaded := false, kind := Anon, slot := k + 1));
      assert St() == SwappedOut(Raced(st, p, Flat(gaps)), p, k, swap.device.sectors);
      SwappedAmid(st, d0, p, k, swap.device.sectors, gaps);
    }

    method DropAmid(p: Page, gaps: seq<seq<StoreRaces.Store>>)
      requires swap.Valid() && p in frames && p in entries && entries[p].kind == Bin && p !in dirty && Inv(St(), data)
      modifies this`entries, this`frames, this`pool, this`mem, this`dirty, this`data
      ensures p in old(data)
      ensures frames == old(frames) - {p} && data == old(data)[p := Apply(old(data)[p], Flat(gaps))]
      ensures Inv(St(), data) <==> forall i :: 0 <= i < PAGE_SIZE ==> Harmless(old(data)[p], Flat(gaps), i)
      ensures p in entries && p in data
      ensures Content(St(), p) == Some(data[p]) <==>
        forall i :: 0 <= i < PAGE_SIZE ==> Harmless(old(data)[p], Flat(gaps), i)
    {
      ghost var st, d0 := St(), data;
      hide Inv, LoadFile, Flat, Apply, Harmless, Content;
      ResidentEntry(st, data, p);
      StoreAll(p, Flat(gaps));
      SetEntry(p, entries[p].(isLoaded := false));
      assert St() == Unmapped(Raced(st, p, Flat(gaps)), p, st.entries[p].(isLoaded := false));
      DroppedAmid(st, d0, p, Flat(gaps));
    }

    /** replacement_mem: the clock's choice loses its frame, by way of the swap area unless it is a clean
        file page. */
    method Replace() returns (ok: bool)
      requires Valid()
      modifies this`entries, this`frames, this`pool, clock, swap.bitmap.bits, swap.device
      ensures ClockOk(old(Cfg())) && (ok <==> !CannotEvict(old(Cfg())))
      ensures ok ==> Valid() && Replaced(old(Cfg()), Cfg())
    {
      ghost var c := Cfg();
      hide Inv, NoRoom, Evicts, Bit, St, NeedsSwap, Choice, C.Ring;
      hide C.IsVictim, Replaced, Without, C.HandAfter, Cleared, Distinct;
      if clock.pages == [] {
        return false;
      }
      assert clock.pages[0] in frames;
      var p := clock.GetVictim();
      ChoiceIs(c, p, clock.accessed);
      ok := Unmap(p);
      if ok {
        Forget(p, c);
      }
    }

    /** The end of an eviction that began in c: the victim leaves the frame list. */
    method Forget(p: Page, ghost c: Config)
      requires swap.Valid() && clock.Valid() && Inv(St(), data) && ClockOk(c) && p in c.pages
      requires clock.pages == c.pages && clock.hand == C.At(p) && clock.accessed == Cleared(c) && p == Choice(c)
      requires frames == c.st.frames - {p} && (forall q :: q in c.pages <==> q in c.st.frames) && Evicts(c.st, St(), p)
      modifies clock`pages, clock`hand
      ensures Valid() && Replaced(c, Cfg())
    {
      hide Inv, Evicts, Bit, St, Choice, C.Ring, Replaced, Without, C.HandAfter, Cleared, Distinct;
      WithoutFacts(clock.pages, p);
      clock.Delete(p);
      ReplacedIs(c, Cfg());
    }

    /** The retry loop of alloc_page: it fails exactly when no frame is free and none can be freed. */
    method AllocPage() returns (f: Option<nat>)
      requires Valid()
      modifies this`entries, this`frames, this`pool, clock, swap.bitmap.bits, swap.device
      ensures ClockOk(old(Cfg())) && (f.None? <==> Stuck(old(Cfg())))
      ensures f.Some? ==> Valid() && f.value in pool && Allocated(old(Cfg()), Cfg())
    {
      ghost var c := Cfg();
      hide Inv, CannotEvict, Replaced, Bit;
      while pool == {}
        invariant Valid() && (pool == {} ==> Cfg() == c) && (pool != {} ==> Allocated(c, Cfg()) && !Stuck(c))
        decreases pool == {}
      {
        var ok := Replace();
        if !ok {
          return None;
        }
        ReplacedFrees(c, Cfg());
      }
      var g :| g in pool;
      f := Some(g);
    }

    /** handle_mm_fault: an absent page comes back with the bytes it should hold. */
    method Fault(p: Page) returns (ok: bool)
      requires Valid() && p in entries && p !in frames
      modifies this`entries, this`frames, this`pool, this`mem, this`dirty, clock, swap.bitmap.bits, swap.device
      ensures ClockOk(old(Cfg())) && (ok <==> CanFault(old(Cfg()), p))
      ensures ok ==> Valid() && p in frames && entries.Keys == old(entries).Keys && Faulted(old(Cfg()), p, Cfg())
      ensures ok ==> entries[p] == old(entries)[p].(isLoaded := true)
    {
      ghost var c := Cfg();
      hide Inv, Bit, Image, SlotData, Allocated, Stuck, InstalledAt;
      var f := AllocPage();
      if f.None? {
        return false;
      }
      ghost var m := Cfg();
      AllocatedKeeps(c, m, p);
      AbsentData(m.st, data, p);
      ok := BringIn(p, f.value);
    }

    /** The part of handle_mm_fault after its alloc_page. */
    method BringIn(p: Page, f: nat) returns (ok: bool)
      requires Valid() && p in entries && p !in frames && f in pool
      modifies this`entries, this`frames, this`pool, this`mem, this`dirty, clock, swap.bitmap.bits
      ensures ok <==> (old(entries)[p].kind == Bin ==> Image(old(entries)[p]).Some?)
      ensures ok ==> Valid() && p in frames && InstalledAt(old(Cfg()), p, f, Cfg())
      ensures ok ==> entries == old(entries)[p := old(entries)[p].(isLoaded := true)]
    {
      hide Inv, Bit, Image, SlotData, InstalledAt;
      match entries[p].kind {
        case Bin =>
          AbsentData(St(), data, p);
          var image := Image(entries[p]);
          if image.None? {
            return false;
          }
          Install(p, f, image.value, Cfg());
        case Anon =>
          BringFromSwap(p, f);
      }
      ok := true;
    }

    method BringFromSwap(p: Page, f: nat)
      requires Valid() && p in entries && p !in frames && f in pool && entries[p].kind == Anon
      modifies this`entries, this`frames, this`pool, this`mem, this`dirty, clock`pages, clock`accessed, swap.bitmap.bits
      ensures Valid() && p in frames && InstalledAt(old(Cfg()), p, f, Cfg())
      ensures entries == old(entries)[p := old(entries)[p].(isLoaded := true)]
    {
      ghost var m := Cfg();
      hide Inv, Bit, Image, SlotData, InstalledAt;
      AbsentData(m.st, data, p);
      var d := swap.SwapIn(entries[p].slot);
      Install(p, f, d, m);
    }

    /** install_page, is_loaded and add_page_to_list_LRU, from state m before swap_in. */
    method Install(p: Page, f: nat, d: PageData, ghost m: Config)
      requires swap.Valid() && clock.Valid() && forall q :: q in clock.pages <==> q in frames
      requires p in entries && p !in frames && f in pool && p in data && d == data[p]
      requires clock.pages == m.pages && clock.hand == m.hand && clock.accessed == m.accessed
      requires p in m.st.entries && Content(m.st, p) == Some(d)
      requires entries[p].kind == Anon ==> 1 <= entries[p].slot <= |m.st.slots|
      requires var e := entries[p];
        St() == m.st.(slots := if e.kind == Anon then m.st.slots[e.slot - 1 := false] else m.st.slots)
      requires Inv(m.st, data)
      modifies this`entries, this`frames, this`pool, this`mem, this`dirty, clock`pages, clock`accessed
      ensures Valid() && p in frames && entries == old(entries)[p := old(entries)[p].(isLoaded := true)]
      ensures InstalledAt(m, p, f, Cfg())
    {
      ghost var st := m.st;
      hide Inv, Bit, LoadFile, SlotData, C.Ring;
      InstallKeeps(st, data, p, f, d);
      entries := entries[p := entries[p].(isLoaded := true)];
      frames := frames[p := f];
      mem := mem[f := d];
      pool := pool - {f};
      dirty := dirty - {p};
      assert St() == Installed(st, p, f, d);
      hide Installed, St;
      EnterRing(p);
    }

    /** add_page_to_list_LRU on a page just mapped, whose accessed bit is clear. */
    method EnterRing(p: Page)
      requires swap.Valid() && clock.Valid() && p !in clock.pages && Inv(St(), data)
      requires forall q :: q in frames <==> q in clock.pages || q == p
      modifies clock`pages, clock`accessed
      ensures Valid() && Cfg() == Config(old(St()), old(clock.pages) + [p], old(clock.hand), old(clock.accessed) - {p})
    {
      hide Inv, C.Ring;
      clock.accessed := clock.accessed - {p};
      clock.Add(p);
    }

    /** A user load returns what was last stored; it fails exactly when its fault does. */
    method UserLoad(p: Page, i: nat) returns (ok: bool, v: byte)
      requires Valid() && p in entries && i < PAGE_SIZE
      modifies this`entries, this`frames, this`pool, this`mem, this`dirty, clock, swap.bitmap.bits, swap.device
      ensures ClockOk(old(Cfg())) && (ok <==> p in old(frames) || CanFault(old(Cfg()), p))
      ensures ok ==> Valid() && entries.Keys == old(entries).Keys && p in data
      ensures ok ==> v == data[p][i] && Loads(old(Cfg()), p, Cfg())
    {
      ghost var c := Cfg();
      hide Inv, Bit, CanFault, Faulted;
      ok, v := true, 0;
      if p !in frames {
        ok := Fault(p);
        if !ok {
          return;
        }
      }
      ghost var m := Cfg();
      assert Present(c, p, m);
      hide Present;
      v := ReadByte(p, i);
    }

    /** The load itself, from a resident page. */
    method ReadByte(p: Page, i: nat) returns (v: byte)
      requires Valid() && p in frames && i < PAGE_SIZE
      modifies clock`accessed
      ensures Valid() && p in data && v == data[p][i] && Cfg() == old(Cfg()).(accessed := old(Cfg()).accessed + {p})
    {
      hide Inv, Bit, C.Ring;
      ResidentEntry(St(), data, p);
      v := mem[frames[p]][i];
      clock.accessed := clock.accessed + {p};
    }

    /** A user store; one to a read-only page kills the process. */
    method UserStore(p: Page, i: nat, v: byte) returns (ok: bool)
      requires Valid() && p in entries && i < PAGE_SIZE
      modifies this`entries, this`frames, this`pool, this`mem, this`dirty
      modifies this`data, clock, swap.bitmap.bits, swap.device
      ensures ClockOk(old(Cfg())) && (ok <==> old(entries)[p].writable && (p in old(frames) || CanFault(old(Cfg()), p)))
      ensures ok ==> Valid() && entries.Keys == old(entries).Keys && Stores(old(Cfg()), p, i, v, Cfg())
      ensures ok ==> p in old(data) && data == old(data)[p := old(data)[p][i := v]]
    {
      ghost var c := Cfg();
      hide Inv, Bit, CanFault, Faulted;
      ok := true;
      if p !in frames {
        ok := Fault(p);
        if !ok {
          return;
        }
      }
      if !entries[p].writable {
        return false;
      }
      ghost var m := Cfg();
      assert Present(c, p, m);
      hide Present;
      WriteByte(p, i, v);
    }

    /** The store itself, to a resident page. */
    method WriteByte(p: Page, i: nat, v: byte)
      requires Valid() && p in frames && i < PAGE_SIZE
      modifies this`mem, this`dirty, this`data, clock
      ensures Valid() && StoresAt(old(Cfg()), p, i, v, Cfg())
      ensures p in old(data) && data == old(data)[p := old(data)[p][i := v]]
    {
      ghost var st := St();
      hide Inv, Bit;
      ResidentEntry(st, data, p);
      var f := frames[p];
      var d: PageData := mem[f][i := v];
      StoreKeeps(st, data, p, d);
      mem := mem[f := d];
      dirty := dirty + {p};
      data := data[p := d];
      assert St() == Written(st, p, d);
      hide Written, St;
      clock.accessed := clock.accessed + {p};
    }

    /** load_segment's entry for one page. */
    method MapFile(p: Page, e: Entry)
      requires Valid() && p !in entries && e.kind == Bin && !e.isLoaded
      modifies this`entries, this`data
      ensures Valid() && entries == old(entries)[p := e] && Cfg() == old(Cfg()).(st := old(St()).(entries := entries))
      ensures data == old(data)[p := FirstBytes(e)]
    {
      hide Inv, Bit, LoadFile, C.Ring;
      ghost var d := FirstBytes(e);
      MapKeeps(St(), data, p, e, d);
      entries := entries[p := e];
      data := data[p := d];
      assert St() == old(St()).(entries := entries);
    }

    /** insert_pge: a page that already has an entry keeps it. */
    method InsertEntry(p: Page, e: Entry)
      requires Valid() && e.kind == Bin && !e.isLoaded
      modifies this`entries, this`data
      ensures Valid()
      ensures p in old(entries) ==> entries == old(entries) && data == old(data)
      ensures p !in old(entries) ==> entries == old(entries)[p := e] && data == old(data)[p := FirstBytes(e)]
    {
      hide Valid;
      if p !in entries {
        MapFile(p, e);
      }
    }

    /** load_segment: consecutive pages get their entries, until there is no memory for one more. */
    method LoadSegment(file: seq<byte>, offset: nat, first: Page, readBytes: nat, zeroBytes: nat, writable: bool,
                       memory: nat)
      returns (ok: bool)
      requires Valid() && (readBytes + zeroBytes) % PAGE_SIZE == 0
      modifies this`entries, this`data
      ensures Valid() && (ok <==> (readBytes + zeroBytes) / PAGE_SIZE <= memory)
      ensures SegmentMapped(old(entries), entries, old(data), data, first, Source(file, offset, readBytes, writable),
                            if ok then (readBytes + zeroBytes) / PAGE_SIZE else memory)
    {
      hide *;
      var read, zero, ofs, page, k := readBytes, zeroBytes, offset, first, 0;
      ghost var src := Source(file, offset, readBytes, writable);
      SameKeys();
      MapStart(entries, data, first, src, zeroBytes);
      while read > 0 || zero > 0
        invariant k <= memory && page == first + k && ofs == offset + Reached(readBytes, k)
        invariant read >= 0 && zero >= 0 && Left(readBytes, zeroBytes, k, read, zero)
        invariant Valid() && SegmentMapped(old(entries), entries, old(data), data, first, src, k)
        decreases read + zero
      {
        LeftNext(readBytes, zeroBytes, k, read, zero);
        var pageRead := if read < PAGE_SIZE then read else PAGE_SIZE;
        if k == memory {
          return false;
        }
        EntryIs(src, k);
        MapNext(old(entries), entries, old(data), data, first, src, k);
        InsertEntry(page, Entry(Bin, writable, false, file, ofs, pageRead, 0));
        read := read - pageRead;
        zero := zero - (PAGE_SIZE - pageRead);
        page := page + 1;
        ofs := ofs + pageRead;
        k := k + 1;
      }
      LeftNone(readBytes, zeroBytes, k);
      ok := true;
    }

    /** stack_grow: a page of zeros, unless no frame is to be had. */
    method GrowStack(p: Page) returns (ok: bool)
      requires Valid() && p !in entries
      modifies this`entries, this`frames, this`pool, this`mem, this`dirty
      modifies this`data, clock, swap.bitmap.bits, swap.device
      ensures ClockOk(old(Cfg())) && (ok <==> !Stuck(old(Cfg())))
      ensures ok ==> Valid() && entries.Keys == old(entries).Keys + {p}
      ensures ok ==> p in frames && p in entries && entries[p].writable
      ensures ok ==> data == old(data)[p := ZeroPage()] && Grows(old(Cfg()), p, Cfg())
    {
      ghost var c := Cfg();
      hide Inv, Bit, ZeroPage, Allocated, Stuck, GrownAt;
      var f := AllocPage();
      if f.None? {
        return false;
      }
      ghost var m := Cfg();
      AllocatedKeeps(c, m, p);
      InstallZero(p, f.value);
      ok := true;
    }

    method InstallZero(p: Page, f: nat)
      requires Valid() && p !in entries && f in pool
      modifies this`entries, this`frames, this`pool, this`mem, this`dirty, this`data, clock
      ensures Valid() && entries.Keys == old(entries).Keys + {p}
      ensures p in frames && p in entries && entries[p].writable
      ensures data == old(data)[p := ZeroPage()] && GrownAt(old(Cfg()), p, f, Cfg())
    {
      hide Inv, Bit, LoadFile, C.Ring, ZeroPage;
      ghost var st := St();
      GrowKeeps(st, data, p, f);
      FramesHaveEntries(st, data);
      entries := entries[p := Entry(Anon, true, true, [], 0, 0, 0)];
      frames := frames[p := f];
      mem := mem[f := ZeroPage()];
      pool := pool - {f};
      dirty := dirty - {p};
      data := data[p := ZeroPage()];
      assert St() == Grown(st, p, f);
      hide Grown, St;
      EnterRing(p);
    }

    lemma SameKeys()
      requires Valid()
      ensures entries.Keys == data.Keys && Cfg().st == St()
    {
    }

    method Step(op: Op) returns (ok: bool, v: Option<byte>)
      requires Valid()
      modifies this`entries, this`frames, this`pool, this`mem, this`dirty
      modifies this`data, clock, swap.bitmap.bits, swap.device
      ensures ClockOk(old(Cfg())) && (ok <==> !Fails(old(Cfg()), op))
      ensures ok ==> Valid() && Next(old(Cfg()), op, Cfg())
      ensures ok ==> data == After(old(data), op) && v == Answer(old(data), op)
    {
      hide Inv, Bit, LoadFile, CanFault, CannotEvict, Replaced, Loads, Stores, Grows, ZeroPage, FirstBytes;
      SameKeys();
      ok, v := true, None;
      match op {
        case Load(p, i) =>
          if p in entries && i < PAGE_SIZE {
            var b: byte;
            ok, b := UserLoad(p, i);
            v := Some(b);
          }
        case Store(p, i, b) =>
          if p in entries && i < PAGE_SIZE {
            ok := UserStore(p, i, b);
          }
        case Evict =>
          ok := Replace();
        case MapFile(p, e) =>
          if p !in entries && e.kind == Bin && !e.isLoaded {
            MapFile(p, e);
          }
        case Grow(p) =>
          if p !in entries {
            ok := GrowStack(p);
          }
      }
    }

    /** Every sequence of loads, stores, evictions, mappings and stack growth: loads return what was last
        stored, and the run ends early exactly at a step that must panic or kill the process. */
    method Run(ops: seq<Op>) returns (done: nat, values: seq<byte>, ghost states: seq<Config>)
      requires Valid()
      modifies this`entries, this`frames, this`pool, this`mem, this`dirty
      modifies this`data, clock, swap.bitmap.bits, swap.device
      ensures done <= |ops| && |states| == done + 1 && states[0] == old(Cfg()) && IsTrace(states, ops, old(data))
      ensures values == Values(old(data), ops[..done])
      ensures done < |ops| ==> Fails(states[done], ops[done])
      ensures done == |ops| ==> Valid() && states[done] == Cfg() && data == AfterAll(old(data), ops)
    {
      hide Inv, Next, Fails, After, Answer, ClockOk, IsTrace, Cfg;
      ClockNow();
      done, values, states := 0, [], [Cfg()];
      assert ops[..0] == [];
      TraceStarts(Cfg(), ops, data);
      while done < |ops|
        invariant done <= |ops| && |states| == done + 1 && states[0] == old(Cfg()) && IsTrace(states, ops, old(data))
        invariant Valid() && states[done] == Cfg() && ClockOk(Cfg())
        invariant data == AfterAll(old(data), ops[..done]) && values == Values(old(data), ops[..done])
      {
        assert ops[..done + 1][..done] == ops[..done];
        var ok, v := Step(ops[done]);
        if !ok {
          return;
        }
        ClockNow();
        values := values + (if v.Some? then [v.value] else []);
        TraceGrows(states, ops, old(data), Cfg());
        states := states + [Cfg()];
        done := done + 1;
      }
      assert ops[..done] == ops;
    }

    lemma ClockNow()
      requires Valid()
      ensures ClockOk(Cfg()) && Inv(Cfg().st, data)
    {
      hide Inv;
    }
  }
}
