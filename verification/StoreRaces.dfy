/** Stores that reach a page while swap_out is copying it, one sector after another (vm/swap.c). */
module StoreRaces {
  import opened Basics
  import opened InodeIO
  import opened Swapping

  type Offset = i: nat | i < PAGE_SIZE

  datatype Store = Store(offset: Offset, value: byte)

  function Apply(d: PageData, stores: seq<Store>): PageData {
    if stores == [] then d
    else
      var last := stores[|stores| - 1];
      Apply(d, stores[..|stores| - 1])[last.offset := last.value]
  }

  /** What the last store to byte i writes, if there is one. */
  function LastStore(stores: seq<Store>, i: nat): Option<byte> {
    if stores == [] then None
    else
      var last := stores[|stores| - 1];
      if last.offset == i then Some(last.value) else LastStore(stores[..|stores| - 1], i)
  }

  lemma {:induction false} ApplyAt(d: PageData, stores: seq<Store>, i: nat)
    requires i < PAGE_SIZE
    ensures Apply(d, stores)[i] == match LastStore(stores, i) case Some(v) => v case None => d[i]
  {
    if stores != [] {
      ApplyAt(d, stores[..|stores| - 1], i);
    }
  }

  lemma {:induction false} ApplyAppend(d: PageData, a: seq<Store>, b: seq<Store>)
    ensures Apply(d, a + b) == Apply(Apply(d, a), b)
  {
    if b == [] {
      assert a + b == a;
    } else {
      ApplyAppend(d, a, b[..|b| - 1]);
      assert (a + b)[..|a + b| - 1] == a + b[..|b| - 1];
    }
  }

  function Flat(gaps: seq<seq<Store>>): seq<Store> {
    if gaps == [] then [] else Flat(gaps[..|gaps| - 1]) + gaps[|gaps| - 1]
  }

  lemma {:induction false} FlatAppend(a: seq<seq<Store>>, b: seq<seq<Store>>)
    ensures Flat(a + b) == Flat(a) + Flat(b)
  {
    if b == [] {
      assert a + b == a;
    } else {
      FlatAppend(a, b[..|b| - 1]);
      assert (a + b)[..|a + b| - 1] == a + b[..|b| - 1];
    }
  }

  /** The page when sector j is copied: gaps[0] come before the first copy, gaps[j] just before sector j's. */
  function Before(d: PageData, gaps: seq<seq<Store>>, j: nat): PageData
    requires j < |gaps|
  {
    Apply(d, Flat(gaps[..j + 1]))
  }

  lemma NextGap(d: PageData, gaps: seq<seq<Store>>, j: nat)
    requires j + 1 < |gaps|
    ensures Flat(gaps[..j + 2]) == Flat(gaps[..j + 1]) + gaps[j + 1]
    ensures Before(d, gaps, j + 1) == Apply(Before(d, gaps, j), gaps[j + 1])
  {
    assert gaps[..j + 2][..j + 1] == gaps[..j + 1];
    ApplyAppend(d, Flat(gaps[..j + 1]), gaps[j + 1]);
  }

  /** c is what the eight copies put together. */
  ghost predicate Copied(d: PageData, gaps: seq<seq<Store>>, c: PageData)
    requires |gaps| == 9
  {
    forall j :: 0 <= j < 8 ==> Part(c, j) == Part(Before(d, gaps, j), j)
  }

  /** The first i sectors have been copied to slot k, and nothing else was written. */
  ghost predicate CopiedTo(was: seq<Sector>, disk: seq<Sector>, k: nat, d: PageData, gaps: seq<seq<Store>>, i: nat)
    requires |gaps| == 9 && i <= 8
  {
    && |disk| == |was| && 8 * k + 8 <= |was|
    && (forall s :: 0 <= s < |was| && !(8 * k <= s < 8 * k + i) ==> disk[s] == was[s])
    && forall j :: 0 <= j < i ==> disk[8 * k + j] == Part(Before(d, gaps, j), j)
  }

  lemma UpdateTwice<K, V>(m: map<K, V>, k: K, a: V, b: V)
    ensures m[k := a][k := b] == m[k := b]
  {
  }

  lemma CopyStart(disk: seq<Sector>, k: nat, d: PageData, gaps: seq<seq<Store>>)
    requires |gaps| == 9 && 8 * k + 8 <= |disk|
    ensures CopiedTo(disk, disk, k, d, gaps, 0)
    ensures Flat(gaps[..1]) == gaps[0] && Before(d, gaps, 0) == Apply(d, gaps[0])
    ensures gaps[..9] == gaps && Before(d, gaps, 8) == Apply(d, Flat(gaps))
  {
    assert gaps[..1][..0] == [] && gaps[..1][0] == gaps[0];
    assert gaps[..9] == gaps;
  }

  lemma CopyNext(was: seq<Sector>, disk: seq<Sector>, k: nat, d: PageData, gaps: seq<seq<Store>>, i: nat)
    requires |gaps| == 9 && i < 8 && CopiedTo(was, disk, k, d, gaps, i)
    ensures CopiedTo(was, disk[8 * k + i := Part(Before(d, gaps, i), i)], k, d, gaps, i + 1)
  {
    hide Before;
  }

  lemma CopyDone(was: seq<Sector>, disk: seq<Sector>, k: nat, d: PageData, gaps: seq<seq<Store>>)
    requires |gaps| == 9 && CopiedTo(was, disk, k, d, gaps, 8)
    ensures OnlySlot(was, disk, k) && Copied(d, gaps, SlotData(disk, k))
  {
    hide Before;
    forall j | 0 <= j < 8
      ensures Part(SlotData(disk, k), j) == Part(Before(d, gaps, j), j)
    {
      DataInParts(disk, k, j);
    }
  }

  /** No byte is left changed by the stores that come after its sector's copy. */
  ghost predicate Kept(d: PageData, gaps: seq<seq<Store>>)
    requires |gaps| == 9
  {
    forall i :: 0 <= i < PAGE_SIZE ==> Harmless(Before(d, gaps, i / SECTOR_SIZE), Flat(gaps[i / SECTOR_SIZE + 1..]), i)
  }

  /** The last store to byte i, if any, writes what was there. */
  predicate Harmless(d: PageData, stores: seq<Store>, i: nat)
    requires i < PAGE_SIZE
  {
    LastStore(stores, i).Some? ==> LastStore(stores, i).value == d[i]
  }

  /** The copy is the page as the stores leave it if and only if no byte is changed after its sector's copy. */
  lemma CopyIsPage(d: PageData, gaps: seq<seq<Store>>, c: PageData)
    requires |gaps| == 9 && Copied(d, gaps, c)
    ensures c == Apply(d, Flat(gaps)) <==> Kept(d, gaps)
  {
    var final := Apply(d, Flat(gaps));
    forall i | 0 <= i < PAGE_SIZE
      ensures c[i] == final[i] <==> Harmless(Before(d, gaps, i / SECTOR_SIZE), Flat(gaps[i / SECTOR_SIZE + 1..]), i)
    {
      ByteKept(d, gaps, c, i);
    }
    if Kept(d, gaps) {
      assert forall i :: 0 <= i < PAGE_SIZE ==> c[i] == final[i];
    }
  }

  lemma ByteKept(d: PageData, gaps: seq<seq<Store>>, c: PageData, i: nat)
    requires |gaps| == 9 && Copied(d, gaps, c) && i < PAGE_SIZE
    ensures c[i] == Apply(d, Flat(gaps))[i] <==>
      Harmless(Before(d, gaps, i / SECTOR_SIZE), Flat(gaps[i / SECTOR_SIZE + 1..]), i)
  {
    var j := i / SECTOR_SIZE;
    var b := Before(d, gaps, j);
    var late := Flat(gaps[j + 1..]);
    hide Apply, LastStore, Flat;
    assert c[i] == Part(c, j)[i % SECTOR_SIZE] && b[i] == Part(b, j)[i % SECTOR_SIZE];
    assert gaps == gaps[..j + 1] + gaps[j + 1..];
    FlatAppend(gaps[..j + 1], gaps[j + 1..]);
    ApplyAppend(d, Flat(gaps[..j + 1]), late);
    ApplyAt(b, late, i);
  }

  lemma ApplyNone(d: PageData)
    ensures Apply(d, []) == d
  {
  }

  /** Without stores nothing can be lost. */
  lemma NoRace(d: PageData, gaps: seq<seq<Store>>)
    requires |gaps| == 9 && Flat(gaps) == []
    ensures Kept(d, gaps) && Apply(d, Flat(gaps)) == d
  {
    forall i | 0 <= i < PAGE_SIZE
      ensures Harmless(Before(d, gaps, i / SECTOR_SIZE), Flat(gaps[i / SECTOR_SIZE + 1..]), i)
    {
      var j := i / SECTOR_SIZE;
      assert gaps == gaps[..j + 1] + gaps[j + 1..];
      FlatAppend(gaps[..j + 1], gaps[j + 1..]);
    }
  }

  /** A page that is not copied is unchanged if and only if every store to it is harmless in the end. */
  lemma UnchangedIff(d: PageData, stores: seq<Store>)
    ensures Apply(d, stores) == d <==> forall i :: 0 <= i < PAGE_SIZE ==> Harmless(d, stores, i)
  {
    var final := Apply(d, stores);
    forall i | 0 <= i < PAGE_SIZE
      ensures final[i] == d[i] <==> Harmless(d, stores, i)
    {
      ApplyAt(d, stores, i);
    }
    if forall i :: 0 <= i < PAGE_SIZE ==> Harmless(d, stores, i) {
      assert forall i :: 0 <= i < PAGE_SIZE ==> final[i] == d[i];
    }
  }

  /** One store, just after the copy of sector j. */
  function Late(j: nat, s: Store): (gaps: seq<seq<Store>>)
    requires j < 8
  {
    seq(j + 1, _ => []) + [[s]] + seq(7 - j, _ => [])
  }

  lemma LateParts(j: nat, s: Store)
    requires j < 8
    ensures var gaps := Late(j, s); |gaps| == 9 && Flat(gaps[..j + 1]) == [] && Flat(gaps[j + 1..]) == [s]
  {
    var gaps := Late(j, s);
    var tail: seq<seq<Store>> := seq(7 - j, _ => []);
    NoStores(gaps[..j + 1]);
    NoStores(tail);
    assert gaps[j + 1..] == [[s]] + tail;
    FlatAppend([[s]], tail);
    assert [[s]][..0] == [];
  }

  lemma {:induction false} NoStores(gaps: seq<seq<Store>>)
    requires forall k :: 0 <= k < |gaps| ==> gaps[k] == []
    ensures Flat(gaps) == []
  {
    if gaps != [] {
      NoStores(gaps[..|gaps| - 1]);
    }
  }

  /** A store of a new value that comes just after its sector's copy is lost. */
  lemma LateStoreLost(d: PageData, i: Offset, v: byte)
    requires v != d[i]
    ensures !Kept(d, Late(i / SECTOR_SIZE, Store(i, v)))
  {
    var j := i / SECTOR_SIZE;
    var s := Store(i, v);
    var gaps := Late(j, s);
    LateParts(j, s);
    hide Flat, Late;
    assert Before(d, gaps, j) == d;
    assert LastStore([s], i) == Some(v);
    assert !Harmless(Before(d, gaps, i / SECTOR_SIZE), Flat(gaps[i / SECTOR_SIZE + 1..]), i);
  }
}
