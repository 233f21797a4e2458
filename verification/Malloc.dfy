/** The sub-page allocator's states: arenas of equal blocks, free lists per block size, and big
    blocks of whole pages, over plain addresses. */
module MallocState {
  import opened Basics
  import Arithmetic64

  const PGSIZE: nat := 4096
  const ARENA_SIZE: nat := 12

  datatype Desc = Desc(blockSize: nat, blocksPerArena: nat)

  /** An arena header: the index of its descriptor, or none for a big block; then the number of free
      blocks, or of pages. */
  datatype Arena = Arena(desc: Option<nat>, freeCnt: nat)

  /** arenas, by page address; free lists, by descriptor; live: what callers hold, with the size
      they asked for. */
  datatype State = State(descs: seq<Desc>, arenas: map<nat, Arena>, free: seq<seq<nat>>, live: map<nat, nat>)

  ghost predicate DescsOk(descs: seq<Desc>) {
    |descs| == 7 && forall k :: 0 <= k < 7 ==> DescOk(descs[k])
  }

  ghost predicate DescOk(d: Desc) {
    d.blockSize >= 16 && d.blocksPerArena >= 3 && d.blocksPerArena == (PGSIZE - ARENA_SIZE) / d.blockSize
  }

  // ----- Addresses -----

  function PgRoundDown(a: nat): nat { a - a % PGSIZE }

  function Times(i: nat, n: nat): nat { i * n }

  /** arena_to_block. */
  function Block(p: nat, d: Desc, i: nat): nat { p + ARENA_SIZE + Times(i, d.blockSize) }

  /** The addresses of an arena's blocks. */
  ghost function Grid(p: nat, d: Desc): set<nat> {
    set i | 0 <= i < d.blocksPerArena :: Block(p, d, i)
  }

  lemma TimesLe(i: nat, j: nat, n: nat)
    requires i < j
    ensures Times(i, n) + n <= Times(j, n)
  {
    Arithmetic64.MulLe(i + 1, j, n);
  }

  lemma RoundDown(p: nat, o: nat)
    requires o < PGSIZE && p % PGSIZE == 0
    ensures PgRoundDown(p + o) == p
  {
  }

  /** A block lies behind its arena's header and inside its page, so rounding down finds the arena. */
  lemma GridFits(p: nat, d: Desc, a: nat)
    requires DescOk(d) && p % PGSIZE == 0 && a in Grid(p, d)
    ensures p + ARENA_SIZE <= a && a + d.blockSize <= p + PGSIZE
    ensures PgRoundDown(a) == p
  {
    var i :| 0 <= i < d.blocksPerArena && a == Block(p, d, i);
    TimesLe(i, d.blocksPerArena, d.blockSize);
    Arithmetic64.QuotExists(PGSIZE - ARENA_SIZE, d.blockSize);
    assert Times(d.blocksPerArena, d.blockSize) <= PGSIZE - ARENA_SIZE;
    RoundDown(p, a - p);
  }

  /** Blocks of one arena do not overlap. */
  lemma GridApart(p: nat, d: Desc, a: nat, b: nat)
    requires a in Grid(p, d) && b in Grid(p, d) && a != b
    ensures a + d.blockSize <= b || b + d.blockSize <= a
  {
    var i :| 0 <= i < d.blocksPerArena && a == Block(p, d, i);
    var j :| 0 <= j < d.blocksPerArena && b == Block(p, d, j);
    if i < j {
      TimesLe(i, j, d.blockSize);
    } else {
      TimesLe(j, i, d.blockSize);
    }
  }

  /** The first n blocks. */
  ghost function GridTo(p: nat, d: Desc, n: nat): set<nat> {
    set i | 0 <= i < n :: Block(p, d, i)
  }

  lemma GridNext(p: nat, d: Desc, n: nat)
    requires d.blockSize > 0
    ensures Block(p, d, n) !in GridTo(p, d, n)
    ensures GridTo(p, d, n + 1) == GridTo(p, d, n) + {Block(p, d, n)}
  {
    hide Times;
    forall i | 0 <= i < n
      ensures Block(p, d, i) != Block(p, d, n)
    {
      TimesLe(i, n, d.blockSize);
    }
  }

  lemma {:induction false} GridSize(p: nat, d: Desc, n: nat)
    requires d.blockSize > 0
    ensures |GridTo(p, d, n)| == n
  {
    hide Block;
    if n > 0 {
      GridSize(p, d, n - 1);
      GridNext(p, d, n - 1);
    }
  }

  // ----- Consistent states -----

  /** The bytes an arena occupies. */
  function Extent(a: Arena): nat { if a.desc.None? then Times(a.freeCnt, PGSIZE) else PGSIZE }

  ghost predicate IsSmall(st: State, p: nat) {
    p in st.arenas && st.arenas[p].desc.Some? && st.arenas[p].desc.value < |st.descs|
  }

  ghost predicate IsBig(st: State, p: nat) {
    p in st.arenas && st.arenas[p].desc.None?
  }

  ghost function DescOf(st: State, p: nat): Desc
    requires IsSmall(st, p)
  {
    st.descs[st.arenas[p].desc.value]
  }

  /** The free list of arena p's descriptor. */
  ghost function ListOf(st: State, p: nat): seq<nat>
    requires IsSmall(st, p) && |st.free| == |st.descs|
  {
    st.free[st.arenas[p].desc.value]
  }

  /** The blocks of arena p on a free list. */
  ghost function FreeIn(l: seq<nat>, p: nat): set<nat> {
    set a | a in l && PgRoundDown(a) == p
  }

  ghost predicate ArenaOk(st: State, p: nat)
    requires p in st.arenas && |st.free| == |st.descs|
  {
    && p > 0 && p % PGSIZE == 0
    && (st.arenas[p].desc.Some? ==> IsSmall(st, p) && st.arenas[p].freeCnt == |FreeIn(ListOf(st, p), p)|)
    && (st.arenas[p].desc.None? ==> st.arenas[p].freeCnt > 0 && p + ARENA_SIZE in st.live)
  }

  ghost predicate ArenasApart(st: State, p: nat, q: nat)
    requires p in st.arenas && q in st.arenas
  {
    p != q ==> p + Extent(st.arenas[p]) <= q || q + Extent(st.arenas[q]) <= p
  }

  /** a is a block of a small arena of descriptor d, and rounding down finds that arena. */
  ghost predicate BlockOf(st: State, a: nat, d: nat) {
    var p := PgRoundDown(a);
    IsSmall(st, p) && st.arenas[p].desc.value == d && a in Grid(p, st.descs[d])
  }

  /** A free list holds blocks of its own arenas, none of them live. */
  ghost predicate FreeOk(st: State, d: nat, a: nat) {
    a !in st.live && BlockOf(st, a, d)
  }

  /** A block that is not live is on the free list. */
  ghost predicate NotLost(st: State, p: nat, a: nat)
    requires IsSmall(st, p) && |st.free| == |st.descs|
  {
    a in st.live || a in ListOf(st, p)
  }

  /** A live block is big enough: one block of an arena, or a big arena's pages. */
  ghost predicate LiveOk(st: State, a: nat)
    requires a in st.live
  {
    var p := PgRoundDown(a);
    || (IsSmall(st, p) && a in Grid(p, DescOf(st, p)) && st.live[a] <= DescOf(st, p).blockSize)
    || (IsBig(st, p) && a == p + ARENA_SIZE && ARENA_SIZE + st.live[a] <= Extent(st.arenas[p]))
  }

  ghost predicate ArenasOk(st: State)
    requires |st.free| == |st.descs|
  {
    && (forall p | p in st.arenas :: ArenaOk(st, p))
    && (forall p, q | p in st.arenas && q in st.arenas :: ArenasApart(st, p, q))
  }

  /** Consistency, also in the middle of an operation. */
  ghost predicate Consistent(st: State) {
    DescsOk(st.descs) && |st.free| == |st.descs| && ArenasOk(st) && BlocksOk(st)
  }

  /** Every block of every arena is either free or live, and on its own free list. */
  ghost predicate BlocksOk(st: State)
    requires |st.free| == |st.descs|
  {
    && (forall d :: 0 <= d < |st.free| ==> Distinct(st.free[d]))
    && (forall d, a :: 0 <= d < |st.free| && a in st.free[d] ==> FreeOk(st, d, a))
    && (forall p, a :: IsSmall(st, p) && a in Grid(p, DescOf(st, p)) ==> NotLost(st, p, a))
    && (forall a | a in st.live :: LiveOk(st, a))
  }

  /** Between operations no arena is entirely free: its page has gone back. */
  ghost predicate Inv(st: State) {
    && Consistent(st)
    && (forall p :: IsSmall(st, p) ==> st.arenas[p].freeCnt < DescOf(st, p).blocksPerArena)
  }

  // ----- What consistency means for callers -----

  /** A live block lies behind the header of its arena and inside its pages. */
  lemma LivePlace(st: State, a: nat)
    requires Consistent(st) && a in st.live
    ensures var p := PgRoundDown(a);
      p in st.arenas && p + ARENA_SIZE <= a && a + st.live[a] <= p + Extent(st.arenas[p])
  {
    var p := PgRoundDown(a);
    assert LiveOk(st, a);
    assert ArenaOk(st, p);
    if IsSmall(st, p) {
      GridFits(p, DescOf(st, p), a);
    }
  }

  /** Live blocks never overlap one another or an arena header. */
  lemma LiveBlocksApart(st: State, a: nat, b: nat, h: nat)
    requires Consistent(st) && a in st.live && b in st.live && h in st.arenas
    ensures a != b ==> a + st.live[a] <= b || b + st.live[b] <= a
    ensures a + st.live[a] <= h || h + ARENA_SIZE <= a
  {
    var p, q := PgRoundDown(a), PgRoundDown(b);
    LivePlace(st, a);
    LivePlace(st, b);
    assert ArenasApart(st, p, q) && ArenasApart(st, p, h);
    assert LiveOk(st, a) && LiveOk(st, b);
    hide Consistent, Grid;
    if p == q && a != b {
      GridApart(p, DescOf(st, p), a, b);
    }
  }

  // ----- Transitions -----

  /** Free list d changes to l; arena p's header changes to ar. */
  ghost function Changed(st: State, d: nat, l: seq<nat>, p: nat, ar: Arena, live: map<nat, nat>): State
    requires d < |st.free|
  {
    st.(free := st.free[d := l], arenas := st.arenas[p := ar], live := live)
  }

  /** Changing one arena's part of its free list, with its count, keeps the headers right. */
  lemma HeaderChange(st: State, d: nat, l: seq<nat>, p: nat, ar: Arena, live: map<nat, nat>, n: State)
    requires |st.free| == |st.descs| && d < |st.free| && ArenasOk(st)
    requires IsSmall(st, p) && st.arenas[p].desc == Some(d) == ar.desc && ar.freeCnt == |FreeIn(l, p)|
    requires forall x: nat :: PgRoundDown(x) != p ==> (x in l <==> x in st.free[d])
    requires forall q: nat :: IsBig(st, q) && q + ARENA_SIZE in st.live ==> q + ARENA_SIZE in live
    requires n == Changed(st, d, l, p, ar, live)
    ensures ArenasOk(n)
  {
    hide PgRoundDown, Times;
    forall q | q in n.arenas
      ensures ArenaOk(n, q)
    {
      assert ArenaOk(st, q) && (IsBig(st, q) || IsSmall(st, q));
      if q != p && IsSmall(st, q) && st.arenas[q].desc.value == d {
        assert FreeIn(l, q) == FreeIn(st.free[d], q);
      }
    }
    forall q, r | q in n.arenas && r in n.arenas
      ensures ArenasApart(n, q, r)
    {
      assert ArenasApart(st, q, r);
    }
  }

  /** malloc takes block b off free list d. */
  lemma TakeKeeps(st: State, d: nat, b: nat, l: seq<nat>, size: nat)
    requires Consistent(st) && d < |st.free| && b in st.free[d]
    requires Distinct(l) && forall x :: x in l <==> x in st.free[d] && x != b
    requires size <= st.descs[d].blockSize
    ensures var p := PgRoundDown(b);
      && IsSmall(st, p) && st.arenas[p].freeCnt > 0
      && Consistent(Changed(st, d, l, p, st.arenas[p].(freeCnt := st.arenas[p].freeCnt - 1), st.live[b := size]))
  {
    var p := PgRoundDown(b);
    assert FreeOk(st, d, b) && ArenaOk(st, p);
    assert FreeIn(l, p) == FreeIn(st.free[d], p) - {b} && b in FreeIn(st.free[d], p);
    var n := Changed(st, d, l, p, st.arenas[p].(freeCnt := st.arenas[p].freeCnt - 1), st.live[b := size]);
    hide BlocksOk;
    HeaderChange(st, d, l, p, n.arenas[p], n.live, n);
    TakeBlocks(st, d, b, l, size, n.arenas[p], n);
  }

  lemma TakeBlocks(st: State, d: nat, b: nat, l: seq<nat>, size: nat, ar: Arena, n: State)
    requires |st.free| == |st.descs| && BlocksOk(st) && d < |st.free| && b in st.free[d]
    requires Distinct(l) && forall x :: x in l <==> x in st.free[d] && x != b
    requires size <= st.descs[d].blockSize
    requires IsSmall(st, PgRoundDown(b))
    requires n == Changed(st, d, l, PgRoundDown(b), ar, st.live[b := size]) && ar.desc == st.arenas[PgRoundDown(b)].desc
    ensures BlocksOk(n)
  {
    hide Grid, PgRoundDown, Times;
    assert FreeOk(st, d, b);
    forall e, a | 0 <= e < |n.free| && a in n.free[e]
      ensures FreeOk(n, e, a)
    {
      assert FreeOk(st, e, a);
    }
    forall q: nat, a | IsSmall(n, q) && a in Grid(q, DescOf(n, q))
      ensures NotLost(n, q, a)
    {
      assert NotLost(st, q, a);
    }
    forall a | a in n.live
      ensures LiveOk(n, a)
    {
      if a != b {
        assert LiveOk(st, a);
      }
    }
  }

  /** Block b is put back on its free list. */
  ghost function Given(st: State, b: nat): State
    requires IsSmall(st, PgRoundDown(b)) && |st.free| == |st.descs|
  {
    var p := PgRoundDown(b);
    var d := st.arenas[p].desc.value;
    Changed(st, d, [b] + st.free[d], p, st.arenas[p].(freeCnt := st.arenas[p].freeCnt + 1), st.live - {b})
  }

  lemma GiveKeeps(st: State, b: nat)
    requires Consistent(st) && b in st.live && IsSmall(st, PgRoundDown(b))
    ensures st.arenas[PgRoundDown(b)].freeCnt < DescOf(st, PgRoundDown(b)).blocksPerArena
    ensures Consistent(Given(st, b))
  {
    var p := PgRoundDown(b);
    var d := st.arenas[p].desc.value;
    assert LiveOk(st, b) && ArenaOk(st, p);
    forall a | a in st.free[d]
      ensures a !in st.live
    {
      assert FreeOk(st, d, a);
    }
    FreeInBounded(st, p, b);
    BigsStay(st, b);
    var l := [b] + st.free[d];
    hide Grid, PgRoundDown, Times, BlocksOk;
    assert FreeIn(l, p) == FreeIn(st.free[d], p) + {b} && b !in FreeIn(st.free[d], p);
    var n := Changed(st, d, l, p, st.arenas[p].(freeCnt := st.arenas[p].freeCnt + 1), st.live - {b});
    assert ArenasOk(n) by {
      hide ArenasOk, DescsOk, FreeIn;
      HeaderChange(st, d, l, p, n.arenas[p], n.live, n);
    }
    GiveBlocks(st, d, p, b, n.arenas[p], n);
  }

  lemma GiveBlocks(st: State, d: nat, p: nat, b: nat, ar: Arena, n: State)
    requires |st.free| == |st.descs| && d < |st.free| && b in st.live && p == PgRoundDown(b)
    requires IsSmall(st, p) && st.arenas[p].desc == Some(d) == ar.desc && b !in st.free[d]
    requires n == Changed(st, d, [b] + st.free[d], p, ar, st.live - {b})
    requires Consistent(st)
    ensures BlocksOk(n)
  {
    assert LiveOk(st, b);
    forall q: nat | IsSmall(st, q) && b in Grid(q, DescOf(st, q))
      ensures q == p
    {
      assert ArenaOk(st, q);
      GridFits(q, DescOf(st, q), b);
    }
    hide Grid, PgRoundDown, Times, ArenasOk, DescsOk;
    GiveFree(st, d, p, b, ar, n);
    forall q: nat, a | IsSmall(n, q) && a in Grid(q, DescOf(n, q))
      ensures NotLost(n, q, a)
    {
      assert NotLost(st, q, a);
    }
    forall a | a in n.live
      ensures LiveOk(n, a)
    {
      assert LiveOk(st, a);
    }
  }

  lemma GiveFree(st: State, d: nat, p: nat, b: nat, ar: Arena, n: State)
    requires |st.free| == |st.descs| && d < |st.free| && b in st.live && p == PgRoundDown(b)
    requires IsSmall(st, p) && st.arenas[p].desc == Some(d) == ar.desc && b !in st.free[d]
    requires n == Changed(st, d, [b] + st.free[d], p, ar, st.live - {b})
    requires BlocksOk(st) && b in Grid(p, DescOf(st, p))
    ensures forall e :: 0 <= e < |n.free| ==> Distinct(n.free[e])
    ensures forall e, a :: 0 <= e < |n.free| && a in n.free[e] ==> FreeOk(n, e, a)
  {
    hide Grid, PgRoundDown, Times;
    forall e, a | 0 <= e < |n.free| && a in n.free[e]
      ensures FreeOk(n, e, a)
    {
      if a != b || e != d {
        assert FreeOk(st, e, a);
      }
    }
  }

  lemma BigsStay(st: State, b: nat)
    requires Consistent(st) && IsSmall(st, PgRoundDown(b))
    ensures forall q: nat :: IsBig(st, q) && q + ARENA_SIZE in st.live ==> q + ARENA_SIZE in st.live - {b}
  {
    forall q: nat | IsBig(st, q)
      ensures q + ARENA_SIZE != b
    {
      assert ArenaOk(st, q);
      RoundDown(q, ARENA_SIZE);
    }
  }

  /** With block b of arena p not on the free list, not all of p's blocks are. */
  lemma FreeInBounded(st: State, p: nat, b: nat)
    requires Consistent(st) && IsSmall(st, p) && b in Grid(p, DescOf(st, p)) && b !in ListOf(st, p)
    ensures |FreeIn(ListOf(st, p), p)| < DescOf(st, p).blocksPerArena
  {
    var d, l := DescOf(st, p), ListOf(st, p);
    FreeInGrid(st, p);
    GridSize(p, d, d.blocksPerArena);
    assert Grid(p, d) == GridTo(p, d, d.blocksPerArena);
    assert FreeIn(l, p) <= Grid(p, d) - {b};
    Smaller(FreeIn(l, p), Grid(p, d) - {b});
  }

  lemma FreeInGrid(st: State, p: nat)
    requires Consistent(st) && IsSmall(st, p)
    ensures FreeIn(ListOf(st, p), p) <= Grid(p, DescOf(st, p))
  {
    forall a | a in FreeIn(ListOf(st, p), p)
      ensures a in Grid(p, DescOf(st, p))
    {
      assert FreeOk(st, st.arenas[p].desc.value, a);
    }
  }

  lemma {:induction false} Smaller(s: set<nat>, t: set<nat>)
    requires s <= t
    ensures |s| <= |t|
    ensures |s| == |t| ==> s == t
  {
    if s != {} {
      var x :| x in s;
      Smaller(s - {x}, t - {x});
    } else if t != {} {
      var y :| y in t;
      assert |t - {y}| == |t| - 1;
    }
  }

  /** cnt pages from palloc: page-aligned and apart from every arena. */
  predicate Fresh(st: State, p: nat, cnt: nat) {
    && p > 0 && p % PGSIZE == 0 && cnt > 0
    && forall q | q in st.arenas :: FreshFrom(st, p, cnt, q)
  }

  predicate FreshFrom(st: State, p: nat, cnt: nat, q: nat)
    requires q in st.arenas
  {
    q + Extent(st.arenas[q]) <= p || p + Times(cnt, PGSIZE) <= q
  }

  /** A fresh page is no arena's page yet. */
  lemma FreshIsNew(st: State, p: nat, cnt: nat)
    requires |st.free| == |st.descs| && ArenasOk(st) && Fresh(st, p, cnt)
    ensures p !in st.arenas
  {
    forall q | q in st.arenas
      ensures q != p
    {
      assert ArenaOk(st, q) && FreshFrom(st, p, cnt, q);
    }
  }

  /** A new header in fresh pages is apart from the others. */
  lemma FreshApart(st: State, p: nat, cnt: nat, ar: Arena, arenas: map<nat, Arena>)
    requires |st.free| == |st.descs| && ArenasOk(st) && Fresh(st, p, cnt)
    requires Extent(ar) == Times(cnt, PGSIZE) && arenas == st.arenas[p := ar]
    ensures forall q, r | q in arenas && r in arenas :: ArenasApart(st.(arenas := arenas), q, r)
  {
    forall q, r | q in arenas && r in arenas
      ensures ArenasApart(st.(arenas := arenas), q, r)
    {
      if q == p {
        if r != p {
          assert FreshFrom(st, p, cnt, r);
        }
      } else if r == p {
        assert FreshFrom(st, p, cnt, q);
      } else {
        assert ArenasApart(st, q, r);
      }
    }
  }

  /** malloc cuts a fresh page into the blocks of an empty free list. */
  lemma NewArenaKeeps(st: State, d: nat, p: nat, l: seq<nat>)
    requires Consistent(st) && d < |st.free| && st.free[d] == [] && Fresh(st, p, 1)
    requires Distinct(l) && forall x: nat :: x in l <==> x in Grid(p, st.descs[d])
    ensures Consistent(Changed(st, d, l, p, Arena(Some(d), st.descs[d].blocksPerArena), st.live))
  {
    var ds := st.descs[d];
    var ar := Arena(Some(d), ds.blocksPerArena);
    var n := Changed(st, d, l, p, ar, st.live);
    assert DescOk(ds);
    forall x | x in Grid(p, ds)
      ensures PgRoundDown(x) == p
    {
      GridFits(p, ds, x);
    }
    GridSize(p, ds, ds.blocksPerArena);
    assert FreeIn(l, p) == Grid(p, ds) == GridTo(p, ds, ds.blocksPerArena);
    FreshIsNew(st, p, 1);
    NewArenaHeaders(st, d, p, l, ar, n);
    NewArenaBlocks(st, d, p, l, ar, n);
  }

  lemma NewArenaHeaders(st: State, d: nat, p: nat, l: seq<nat>, ar: Arena, n: State)
    requires |st.free| == |st.descs| && d < |st.free| && ArenasOk(st) && st.free[d] == [] && Fresh(st, p, 1)
    requires p !in st.arenas && ar.desc == Some(d) && ar.freeCnt == |FreeIn(l, p)|
    requires forall x: nat :: x in l ==> PgRoundDown(x) == p
    requires n == Changed(st, d, l, p, ar, st.live)
    ensures ArenasOk(n)
  {
    FreshApart(st, p, 1, ar, n.arenas);
    hide PgRoundDown, Times, Fresh;
    forall q | q in n.arenas
      ensures ArenaOk(n, q)
    {
      if q != p {
        assert ArenaOk(st, q);
        if IsSmall(st, q) && st.arenas[q].desc.value == d {
          assert FreeIn(l, q) == FreeIn(st.free[d], q);
        }
      }
    }
    forall q, r | q in n.arenas && r in n.arenas
      ensures ArenasApart(n, q, r)
    {
      assert ArenasApart(st.(arenas := n.arenas), q, r);
    }
  }

  lemma NewArenaBlocks(st: State, d: nat, p: nat, l: seq<nat>, ar: Arena, n: State)
    requires |st.free| == |st.descs| && d < |st.free| && BlocksOk(st) && st.free[d] == [] && p !in st.arenas
    requires Distinct(l) && forall x: nat :: x in l <==> x in Grid(p, st.descs[d])
    requires forall x: nat :: x in Grid(p, st.descs[d]) ==> PgRoundDown(x) == p
    requires ar.desc == Some(d) && n == Changed(st, d, l, p, ar, st.live)
    ensures BlocksOk(n)
  {
    hide Grid, PgRoundDown, Times;
    forall a | a in st.live
      ensures PgRoundDown(a) != p
    {
      assert LiveOk(st, a);
    }
    forall e, a | 0 <= e < |n.free| && a in n.free[e]
      ensures FreeOk(n, e, a)
    {
      if e != d {
        assert FreeOk(st, e, a);
      }
    }
    forall q: nat, a | IsSmall(n, q) && a in Grid(q, DescOf(n, q))
      ensures NotLost(n, q, a)
    {
      if q != p {
        assert NotLost(st, q, a);
      }
    }
    forall a | a in n.live
      ensures LiveOk(n, a)
    {
      assert LiveOk(st, a);
    }
  }

  /** When the count says so, all of an arena's blocks are on the free list and none is live. */
  lemma FullArena(st: State, p: nat)
    requires Consistent(st) && IsSmall(st, p) && st.arenas[p].freeCnt >= DescOf(st, p).blocksPerArena
    ensures st.arenas[p].freeCnt == DescOf(st, p).blocksPerArena
    ensures forall x: nat :: x in Grid(p, DescOf(st, p)) <==> x in ListOf(st, p) && PgRoundDown(x) == p
    ensures forall a | a in st.live :: PgRoundDown(a) != p
  {
    var ds, d := DescOf(st, p), st.arenas[p].desc.value;
    var g := FreeIn(ListOf(st, p), p);
    assert ArenaOk(st, p);
    FreeInGrid(st, p);
    GridSize(p, ds, ds.blocksPerArena);
    assert Grid(p, ds) == GridTo(p, ds, ds.blocksPerArena);
    Smaller(g, Grid(p, ds));
    hide Grid, Times;
    forall a | a in st.live
      ensures PgRoundDown(a) != p
    {
      assert LiveOk(st, a);
      assert a in g ==> FreeOk(st, d, a);
    }
    assert forall x: nat :: x in ListOf(st, p) && PgRoundDown(x) == p ==> x in g;
    assert forall x: nat :: x in g ==> PgRoundDown(x) == p;
  }

  /** free gives the page of an entirely free arena back. */
  lemma ReleaseKeeps(st: State, p: nat, l: seq<nat>)
    requires Consistent(st) && IsSmall(st, p) && st.arenas[p].freeCnt >= DescOf(st, p).blocksPerArena
    requires Distinct(l) && forall x: nat :: x in l <==> x in ListOf(st, p) && x !in Grid(p, DescOf(st, p))
    ensures Consistent(st.(free := st.free[st.arenas[p].desc.value := l], arenas := st.arenas - {p}))
  {
    var d := st.arenas[p].desc.value;
    FullArena(st, p);
    GridsFit(st);
    hide Grid, PgRoundDown;
    var n := st.(free := st.free[d := l], arenas := st.arenas - {p});
    ReleaseHeaders(st, p, d, l, n);
    ReleaseBlocks(st, p, d, l, n);
  }

  lemma ReleaseHeaders(st: State, p: nat, d: nat, l: seq<nat>, n: State)
    requires |st.free| == |st.descs| && d < |st.free| && ArenasOk(st)
    requires forall x: nat :: x in l <==> x in st.free[d] && PgRoundDown(x) != p
    requires n == st.(free := st.free[d := l], arenas := st.arenas - {p})
    ensures ArenasOk(n)
  {
    hide PgRoundDown, Times;
    forall q | q in n.arenas
      ensures ArenaOk(n, q)
    {
      assert ArenaOk(st, q);
      if IsSmall(st, q) && st.arenas[q].desc.value == d {
        assert FreeIn(l, q) == FreeIn(st.free[d], q);
      }
    }
    forall q, r | q in n.arenas && r in n.arenas
      ensures ArenasApart(n, q, r)
    {
      assert ArenasApart(st, q, r);
    }
  }

  lemma ReleaseBlocks(st: State, p: nat, d: nat, l: seq<nat>, n: State)
    requires |st.free| == |st.descs| && d < |st.free| && BlocksOk(st) && IsSmall(st, p) && st.arenas[p].desc.value == d
    requires Distinct(l) && forall x: nat :: x in l <==> x in st.free[d] && PgRoundDown(x) != p
    requires forall a | a in st.live :: PgRoundDown(a) != p
    requires n == st.(free := st.free[d := l], arenas := st.arenas - {p})
    requires forall q: nat, x: nat :: IsSmall(st, q) && x in Grid(q, DescOf(st, q)) ==> PgRoundDown(x) == q
    ensures BlocksOk(n)
  {
    hide Grid, PgRoundDown, Times;
    forall e, a | 0 <= e < |n.free| && a in n.free[e]
      ensures FreeOk(n, e, a)
    {
      assert FreeOk(st, e, a);
    }
    forall q: nat, a | IsSmall(n, q) && a in Grid(q, DescOf(n, q))
      ensures NotLost(n, q, a)
    {
      assert IsSmall(st, q) && NotLost(st, q, a);
    }
    forall a | a in n.live
      ensures LiveOk(n, a)
    {
      assert LiveOk(st, a);
    }
  }

  /** Every block of every small arena is in that arena's page. */
  lemma GridsFit(st: State)
    requires DescsOk(st.descs) && |st.free| == |st.descs| && ArenasOk(st)
    ensures forall q: nat, x: nat :: IsSmall(st, q) && x in Grid(q, DescOf(st, q)) ==> PgRoundDown(x) == q
  {
    forall q: nat, x: nat | IsSmall(st, q) && x in Grid(q, DescOf(st, q))
      ensures PgRoundDown(x) == q
    {
      assert ArenaOk(st, q);
      GridFits(q, DescOf(st, q), x);
    }
  }

  /** malloc marks fresh pages as one big block. */
  lemma BigAllocKeeps(st: State, p: nat, cnt: nat, size: nat)
    requires Consistent(st) && Fresh(st, p, cnt) && ARENA_SIZE + size <= Times(cnt, PGSIZE)
    ensures p !in st.arenas && p + ARENA_SIZE !in st.live
    ensures Consistent(st.(arenas := st.arenas[p := Arena(None, cnt)], live := st.live[p + ARENA_SIZE := size]))
  {
    var b := p + ARENA_SIZE;
    var n := st.(arenas := st.arenas[p := Arena(None, cnt)], live := st.live[b := size]);
    FreshIsNew(st, p, cnt);
    FreshApart(st, p, cnt, n.arenas[p], n.arenas);
    RoundDown(p, ARENA_SIZE);
    hide Grid, PgRoundDown, Times, Fresh;
    forall a | a in st.live
      ensures PgRoundDown(a) != p
    {
      assert LiveOk(st, a);
    }
    assert ArenasOk(n) by {
      forall q | q in n.arenas
        ensures ArenaOk(n, q)
      {
        assert q != p ==> ArenaOk(st, q);
      }
      forall q, r | q in n.arenas && r in n.arenas
        ensures ArenasApart(n, q, r)
      {
        assert ArenasApart(st.(arenas := n.arenas), q, r);
      }
    }
    BigBlocks(st, p, n);
  }

  lemma BigBlocks(st: State, p: nat, n: State)
    requires |st.free| == |st.descs| && BlocksOk(st) && PgRoundDown(p + ARENA_SIZE) == p && p !in st.arenas
    requires n.descs == st.descs && n.free == st.free
    requires IsBig(n, p) && n.arenas == st.arenas[p := n.arenas[p]]
    requires p + ARENA_SIZE in n.live && n.live == st.live[p + ARENA_SIZE := n.live[p + ARENA_SIZE]]
    requires ARENA_SIZE + n.live[p + ARENA_SIZE] <= Extent(n.arenas[p])
    ensures BlocksOk(n)
  {
    hide Grid, PgRoundDown, Times;
    forall e, a | 0 <= e < |n.free| && a in n.free[e]
      ensures FreeOk(n, e, a)
    {
      assert FreeOk(st, e, a);
    }
    forall q: nat, a | IsSmall(n, q) && a in Grid(q, DescOf(n, q))
      ensures NotLost(n, q, a)
    {
      assert NotLost(st, q, a);
    }
    forall a | a in n.live
      ensures LiveOk(n, a)
    {
      if a != p + ARENA_SIZE {
        assert LiveOk(st, a);
      }
    }
  }

  /** free gives a big block's pages back. */
  lemma BigFreeKeeps(st: State, b: nat)
    requires Consistent(st) && b in st.live && IsBig(st, PgRoundDown(b))
    ensures b == PgRoundDown(b) + ARENA_SIZE
    ensures forall a :: a in st.live && a != b ==> PgRoundDown(a) != PgRoundDown(b)
    ensures Consistent(st.(arenas := st.arenas - {PgRoundDown(b)}, live := st.live - {b}))
  {
    var p := PgRoundDown(b);
    GridsFit(st);
    assert LiveOk(st, b);
    hide Grid, PgRoundDown, Times, DescsOk;
    forall a | a in st.live && a != b
      ensures PgRoundDown(a) != p
    {
      assert LiveOk(st, a);
    }
    var n := st.(arenas := st.arenas - {p}, live := st.live - {b});
    BigFreeHeaders(st, p, n);
    BigFreeBlocks(st, p, b, n);
  }

  lemma BigFreeHeaders(st: State, p: nat, n: State)
    requires |st.free| == |st.descs| && ArenasOk(st)
    requires n == st.(arenas := st.arenas - {p}, live := st.live - {p + ARENA_SIZE})
    ensures ArenasOk(n)
  {
    hide FreeIn, Times;
    forall q | q in n.arenas
      ensures ArenaOk(n, q)
    {
      assert ArenaOk(st, q);
    }
    forall q, r | q in n.arenas && r in n.arenas
      ensures ArenasApart(n, q, r)
    {
      assert ArenasApart(st, q, r);
    }
  }

  lemma BigFreeBlocks(st: State, p: nat, b: nat, n: State)
    requires |st.free| == |st.descs| && p == PgRoundDown(b) && IsBig(st, p)
    requires n == st.(arenas := st.arenas - {p}, live := st.live - {b})
    requires forall a :: a in st.live && a != b ==> PgRoundDown(a) != p
    requires forall q: nat, x: nat :: IsSmall(st, q) && x in Grid(q, DescOf(st, q)) ==> PgRoundDown(x) == q
    requires BlocksOk(st)
    ensures BlocksOk(n)
  {
    hide Grid, PgRoundDown, Times;
    forall e, a | 0 <= e < |n.free| && a in n.free[e]
      ensures FreeOk(n, e, a)
    {
      assert FreeOk(st, e, a);
    }
    forall q: nat, a | IsSmall(n, q) && a in Grid(q, DescOf(n, q))
      ensures NotLost(n, q, a)
    {
      assert IsSmall(st, q) && NotLost(st, q, a);
    }
    forall a | a in n.live
      ensures LiveOk(n, a)
    {
      assert LiveOk(st, a);
    }
  }

  lemma GivenReady(st: State, b: nat)
    requires Inv(st) && b in st.live && IsSmall(st, PgRoundDown(b)) && Consistent(Given(st, b))
    ensures var p, n := PgRoundDown(b), Given(st, b);
      IsSmall(n, p) && Ready(n, p) && (n.arenas[p].freeCnt < DescOf(n, p).blocksPerArena ==> Inv(n))
  {
    var p, n := PgRoundDown(b), Given(st, b);
    hide Consistent, PgRoundDown;
    assert n.arenas == st.arenas[p := n.arenas[p]] && n.arenas[p].desc == st.arenas[p].desc;
    forall q | IsSmall(n, q) && q != p
      ensures n.arenas[q].freeCnt < DescOf(n, q).blocksPerArena
    {
      assert IsSmall(st, q);
    }
  }

  /** Dropping arena p ends the operation. */
  lemma ReleasedInv(n: State, p: nat, m: State)
    requires Ready(n, p) && Consistent(m) && m.descs == n.descs && m.arenas == n.arenas - {p}
    ensures Inv(m)
  {
    hide Consistent;
    forall q | IsSmall(m, q)
      ensures m.arenas[q].freeCnt < DescOf(m, q).blocksPerArena
    {
      assert IsSmall(n, q);
    }
  }

  lemma BigHasPages(st: State, p: nat)
    requires Consistent(st) && IsBig(st, p)
    ensures st.arenas[p].freeCnt > 0
  {
    assert ArenaOk(st, p);
  }

  /** No caller holds the null pointer. */
  lemma NullNotLive(st: State)
    requires Consistent(st)
    ensures 0 !in st.live
  {
    forall a | a in st.live
      ensures a != 0
    {
      LivePlace(st, a);
    }
  }

  /** No page is kept without a live block in it. */
  lemma ArenaHasLive(st: State, p: nat)
    requires Inv(st) && p in st.arenas
    ensures exists a :: a in st.live && PgRoundDown(a) == p
  {
    assert ArenaOk(st, p);
    hide Times, Block;
    if IsBig(st, p) {
      RoundDown(p, ARENA_SIZE);
    } else {
      var ds, l := DescOf(st, p), ListOf(st, p);
      GridSize(p, ds, ds.blocksPerArena);
      assert Grid(p, ds) == GridTo(p, ds, ds.blocksPerArena);
      if Grid(p, ds) <= FreeIn(l, p) {
        Smaller(Grid(p, ds), FreeIn(l, p));
      }
      var a :| a in Grid(p, ds) && a !in FreeIn(l, p);
      GridFits(p, ds, a);
      assert NotLost(st, p, a);
    }
  }

  /** Consistent, with at most arena p entirely free. */
  ghost predicate Ready(st: State, p: nat) {
    Consistent(st) && forall q :: IsSmall(st, q) && q != p ==> st.arenas[q].freeCnt < DescOf(st, q).blocksPerArena
  }

  /** The first block of free list d is taken. */
  ghost function Taken(st: State, d: nat, size: nat): State
    requires d < |st.free| && |st.free[d]| > 0 && PgRoundDown(st.free[d][0]) in st.arenas
    requires st.arenas[PgRoundDown(st.free[d][0])].freeCnt > 0
  {
    var b := st.free[d][0];
    var ar := st.arenas[PgRoundDown(b)];
    Changed(st, d, st.free[d][1..], PgRoundDown(b), ar.(freeCnt := ar.freeCnt - 1), st.live[b := size])
  }

  lemma InvReady(st: State, p: nat)
    requires Inv(st)
    ensures Ready(st, p) && Consistent(st) && |st.free| == |st.descs|
  {
    assert |st.free| == |st.descs|;
    hide Consistent;
  }

  lemma NewReady(st: State, d: nat, l: seq<nat>, page: nat)
    requires Inv(st) && d < |st.free| && page !in st.arenas && |l| > 0
    requires Consistent(Changed(st, d, l, page, Arena(Some(d), st.descs[d].blocksPerArena), st.live))
    requires st.free[d] == []
    ensures Ready(Changed(st, d, l, page, Arena(Some(d), st.descs[d].blocksPerArena), st.live), PgRoundDown(l[0]))
  {
    var n := Changed(st, d, l, page, Arena(Some(d), st.descs[d].blocksPerArena), st.live);
    assert FreeOk(n, d, l[0]);
    var q := PgRoundDown(l[0]);
    assert ArenaOk(n, q);
    forall p | IsSmall(st, p) && st.arenas[p].desc.value == d
      ensures p != q
    {
      assert ArenaOk(st, p) && ArenaOk(n, p);
      assert FreeIn([], p) == {} && l[0] in FreeIn(l, q);
    }
    hide Consistent, Grid, PgRoundDown;
  }

  lemma TakeFirst(st: State, d: nat, size: nat)
    requires d < |st.free| && |st.free[d]| > 0 && Ready(st, PgRoundDown(st.free[d][0])) && size <= st.descs[d].blockSize
    ensures Consistent(st) && |st.free| == |st.descs|
    ensures var b := st.free[d][0];
      && b > 0 && b !in st.live && IsSmall(st, PgRoundDown(b)) && st.arenas[PgRoundDown(b)].freeCnt > 0
      && BlockOf(Taken(st, d, size), b, d) && Inv(Taken(st, d, size))
  {
    var b, l := st.free[d][0], st.free[d][1..];
    var p := PgRoundDown(b);
    assert FreeOk(st, d, b);
    assert ArenaOk(st, p);
    Popped(st.free[d]);
    FreeInGrid(st, p);
    var ds := st.descs[d];
    GridSize(p, ds, ds.blocksPerArena);
    assert Grid(p, ds) == GridTo(p, ds, ds.blocksPerArena);
    Smaller(FreeIn(st.free[d], p), Grid(p, ds));
    TakeKeeps(st, d, b, l, size);
    hide Consistent, Grid, PgRoundDown;
  }

  /** Live blocks overlap neither one another nor a header nor a free block. */
  ghost predicate Separate(st: State)
    requires |st.free| == |st.descs|
  {
    && (forall a, b :: a in st.live && b in st.live && a != b ==> a + st.live[a] <= b || b + st.live[b] <= a)
    && (forall a, h :: a in st.live && h in st.arenas ==> a + st.live[a] <= h || h + ARENA_SIZE <= a)
    && (forall a, d: nat, f :: a in st.live && d < |st.free| && f in st.free[d] ==>
          a + st.live[a] <= f || f + st.descs[d].blockSize <= a)
  }

  /** Counts are right, the pages held are exactly those with a live block, and free lists stay inside them. */
  ghost predicate Counted(st: State)
    requires |st.free| == |st.descs|
  {
    && (forall p :: IsSmall(st, p) ==> st.arenas[p].freeCnt == |FreeIn(ListOf(st, p), p)|)
    && (forall p :: p in st.arenas ==> exists a :: a in st.live && PgRoundDown(a) == p)
    && (forall a :: a in st.live ==> PgRoundDown(a) in st.arenas)
    && (forall d: nat, f :: d < |st.free| && f in st.free[d] ==> PgRoundDown(f) in st.arenas)
  }

  /** What callers rely on. */
  ghost predicate Safe(st: State) {
    |st.free| == |st.descs| && Separate(st) && Counted(st)
  }

  lemma InvIsSafe(st: State)
    requires Inv(st)
    ensures Safe(st)
  {
    assert |st.free| == |st.descs|;
    hide Consistent, Separate, Counted;
    InvIsSeparate(st);
    InvIsCounted(st);
  }

  lemma InvIsSeparate(st: State)
    requires Consistent(st) && |st.free| == |st.descs|
    ensures Separate(st)
  {
    hide Consistent, PgRoundDown, Extent;
    forall a, b | a in st.live && b in st.live && a != b
      ensures a + st.live[a] <= b || b + st.live[b] <= a
    {
      LivePlace(st, a);
      LiveBlocksApart(st, a, b, PgRoundDown(a));
    }
    forall a, h | a in st.live && h in st.arenas
      ensures a + st.live[a] <= h || h + ARENA_SIZE <= a
    {
      LiveBlocksApart(st, a, a, h);
    }
    forall a, d: nat, f | a in st.live && d < |st.free| && f in st.free[d]
      ensures a + st.live[a] <= f || f + st.descs[d].blockSize <= a
    {
      FreeApart(st, a, d, f);
    }
  }

  lemma InvIsCounted(st: State)
    requires |st.free| == |st.descs| && Inv(st)
    ensures Counted(st)
  {
    hide PgRoundDown, FreeIn, Grid, Times;
    forall p | p in st.arenas
      ensures exists a :: a in st.live && PgRoundDown(a) == p
      ensures IsSmall(st, p) ==> st.arenas[p].freeCnt == |FreeIn(ListOf(st, p), p)|
    {
      assert ArenaOk(st, p);
      ArenaHasLive(st, p);
    }
    forall a | a in st.live
      ensures PgRoundDown(a) in st.arenas
    {
      assert LiveOk(st, a);
    }
    forall d: nat, f | d < |st.free| && f in st.free[d]
      ensures PgRoundDown(f) in st.arenas
    {
      assert FreeOk(st, d, f);
    }
  }

  // ----- The allocator's own bytes -----

  /** Byte x belongs to an arena header or a free block of descriptor size. */
  predicate Own(descs: seq<Desc>, arenas: map<nat, Arena>, free: seq<seq<nat>>, x: nat)
    requires |free| == |descs|
  {
    || (exists h :: h in arenas && h <= x < h + ARENA_SIZE)
    || (exists d, a :: 0 <= d < |free| && a in free[d] && a <= x < a + descs[d].blockSize)
  }

  /** What malloc and free write for themselves is never a byte of a live block. */
  lemma LiveNotOwn(st: State, a: nat, x: nat)
    requires Consistent(st) && a in st.live && a <= x < a + st.live[a]
    ensures !Own(st.descs, st.arenas, st.free, x)
  {
    forall h | h in st.arenas
      ensures !(h <= x < h + ARENA_SIZE)
    {
      LiveBlocksApart(st, a, a, h);
    }
    forall d, f | 0 <= d < |st.free| && f in st.free[d]
      ensures !(f <= x < f + st.descs[d].blockSize)
    {
      FreeApart(st, a, d, f);
    }
  }

  /** Live blocks never overlap free ones. */
  lemma FreeApart(st: State, a: nat, d: nat, f: nat)
    requires Consistent(st) && a in st.live && d < |st.free| && f in st.free[d]
    ensures a + st.live[a] <= f || f + st.descs[d].blockSize <= a
  {
    assert FreeOk(st, d, f) && LiveOk(st, a);
    var p, q := PgRoundDown(a), PgRoundDown(f);
    LivePlace(st, a);
    assert ArenaOk(st, q) && ArenasApart(st, p, q);
    assert DescOk(st.descs[d]);
    GridFits(q, st.descs[d], f);
    hide Consistent, Grid, PgRoundDown;
    if p == q {
      GridApart(p, DescOf(st, p), a, f);
    }
  }

  /** block_size: what a live block can hold. */
  function Capacity(descs: seq<Desc>, arenas: map<nat, Arena>, a: nat): nat
    requires PgRoundDown(a) in arenas
    requires arenas[PgRoundDown(a)].desc.Some? ==> arenas[PgRoundDown(a)].desc.value < |descs|
    requires arenas[PgRoundDown(a)].desc.None? ==> a % PGSIZE <= Times(arenas[PgRoundDown(a)].freeCnt, PGSIZE)
  {
    var ar := arenas[PgRoundDown(a)];
    if ar.desc.Some? then descs[ar.desc.value].blockSize else Times(ar.freeCnt, PGSIZE) - a % PGSIZE
  }

  /** A live block may be used up to its capacity. */
  lemma CapacityKeeps(st: State, a: nat)
    requires Consistent(st) && a in st.live
    ensures PgRoundDown(a) in st.arenas && (IsSmall(st, PgRoundDown(a)) || IsBig(st, PgRoundDown(a)))
    ensures IsBig(st, PgRoundDown(a)) ==> a % PGSIZE <= Times(st.arenas[PgRoundDown(a)].freeCnt, PGSIZE)
    ensures st.live[a] <= Capacity(st.descs, st.arenas, a)
    ensures Consistent(st.(live := st.live[a := Capacity(st.descs, st.arenas, a)]))
  {
    var p := PgRoundDown(a);
    assert LiveOk(st, a) && ArenaOk(st, p);
    var c := Capacity(st.descs, st.arenas, a);
    var n := st.(live := st.live[a := c]);
    hide Grid, Times, DescsOk, FreeIn;
    assert LiveOk(n, a);
    hide PgRoundDown, Capacity;
    CapacityHeaders(st, n);
    CapacityBlocks(st, a, n);
  }

  lemma CapacityHeaders(st: State, n: State)
    requires |st.free| == |st.descs| && ArenasOk(st) && n == st.(live := n.live) && n.live.Keys == st.live.Keys
    ensures ArenasOk(n)
  {
    hide FreeIn, Times;
    forall q | q in n.arenas
      ensures ArenaOk(n, q)
    {
      assert ArenaOk(st, q);
    }
    forall q, r | q in n.arenas && r in n.arenas
      ensures ArenasApart(n, q, r)
    {
      assert ArenasApart(st, q, r);
    }
  }

  lemma CapacityBlocks(st: State, a: nat, n: State)
    requires |st.free| == |st.descs| && a in st.live && n.live.Keys == st.live.Keys
    requires a in n.live && n == st.(live := st.live[a := n.live[a]]) && LiveOk(n, a)
    requires BlocksOk(st)
    ensures BlocksOk(n)
  {
    hide Grid, PgRoundDown, Times;
    forall e, f | 0 <= e < |n.free| && f in n.free[e]
      ensures FreeOk(n, e, f)
    {
      assert FreeOk(st, e, f);
    }
    forall q: nat, f | IsSmall(n, q) && f in Grid(q, DescOf(n, q))
      ensures NotLost(n, q, f)
    {
      assert NotLost(st, q, f);
    }
    forall b | b in n.live
      ensures LiveOk(n, b)
    {
      assert b != a ==> LiveOk(st, b);
    }
  }
}

/** malloc, free and realloc on the allocator's state. Free lists are sequences; palloc's outcome and
    the bytes the allocator leaves in its own headers and free blocks are parameters. */
module Mallocs {
  import opened Basics
  import opened MallocState

  type Memory = nat -> nat

  /** The allocator writes, but only to headers and free blocks. */
  function Scribble(descs: seq<Desc>, arenas: map<nat, Arena>, free: seq<seq<nat>>, mem: Memory, noise: Memory): Memory
    requires |free| == |descs|
  {
    x => if Own(descs, arenas, free, x) then noise(x) else mem(x)
  }

  /** Blocks live in both states still hold their bytes. */
  ghost predicate Kept(l0: map<nat, nat>, l1: map<nat, nat>, m0: Memory, m1: Memory) {
    forall a, x: nat {:trigger a in l0, m1(x)} :: a in l0 && a in l1 && a <= x < a + l0[a] ==> m1(x) == m0(x)
  }

  lemma KeptSame(l0: map<nat, nat>, l1: map<nat, nat>, m: Memory)
    ensures Kept(l0, l1, m, m)
  {
  }

  /** The new block starts with the old block's bytes, as far as both sizes go. */
  ghost predicate Copied(m0: Memory, a: nat, oldSize: nat, m1: Memory, b: nat, newSize: nat) {
    forall x: nat {:trigger m1(x)} :: b <= x < b + oldSize && x < b + newSize ==> m1(x) == m0(a + (x - b))
  }

  lemma KeptLess(l0: map<nat, nat>, l1: map<nat, nat>, m0: Memory, m1: Memory)
    requires Kept(l1, l1, m0, m1) && forall a :: a in l1 ==> a in l0 && l0[a] == l1[a]
    ensures Kept(l0, l1, m0, m1)
  {
  }

  lemma KeptMore(l: map<nat, nat>, b: nat, size: nat, m0: Memory, m1: Memory)
    requires Kept(l, l, m0, m1) && b !in l
    ensures Kept(l, l[b := size], m0, m1)
  {
  }

  lemma ScribbleKeeps(st: State, mem: Memory, noise: Memory)
    requires Consistent(st)
    ensures Kept(st.live, st.live, mem, Scribble(st.descs, st.arenas, st.free, mem, noise))
  {
    forall a, x: nat | a in st.live && a <= x < a + st.live[a]
      ensures !Own(st.descs, st.arenas, st.free, x)
    {
      LiveNotOwn(st, a, x);
    }
  }

  /** A block's capacity ends before any other live block begins. */
  lemma CapacityApart(st: State, a: nat, b: nat)
    requires Consistent(st) && a in st.live && b in st.live && a != b
    ensures PgRoundDown(a) in st.arenas && (IsSmall(st, PgRoundDown(a)) || IsBig(st, PgRoundDown(a)))
    ensures IsBig(st, PgRoundDown(a)) ==> a % PGSIZE <= Times(st.arenas[PgRoundDown(a)].freeCnt, PGSIZE)
    ensures st.live[a] <= Capacity(st.descs, st.arenas, a)
    ensures a + Capacity(st.descs, st.arenas, a) <= b || b + st.live[b] <= a
  {
    hide Consistent, PgRoundDown, Times;
    CapacityKeeps(st, a);
    LiveBlocksApart(st.(live := st.live[a := Capacity(st.descs, st.arenas, a)]), a, b, PgRoundDown(a));
  }

  /** Filling a live block leaves the other live blocks alone. */
  lemma CopyKeeps(st: State, b: nat, size: nat, m0: Memory, m1: Memory)
    requires Consistent(st) && b in st.live && size <= st.live[b]
    requires forall x: nat :: x < b || b + size <= x ==> m1(x) == m0(x)
    ensures Kept(st.live - {b}, st.live, m0, m1)
  {
    hide Consistent;
    forall a, x: nat | a in st.live && a != b && a <= x < a + st.live[a]
      ensures m1(x) == m0(x)
    {
      LiveInArena(st, a);
      LiveBlocksApart(st, a, b, PgRoundDown(a));
    }
  }

  lemma LiveInArena(st: State, a: nat)
    requires Consistent(st) && a in st.live
    ensures PgRoundDown(a) in st.arenas
  {
    LivePlace(st, a);
  }

  /** realloc's bytes, through malloc (m0 to m1), memcpy (to m2) and free (to m3). */
  lemma CopyArrives(l0: map<nat, nat>, l1: map<nat, nat>, l2: map<nat, nat>, m0: Memory, m1: Memory, m2: Memory,
                    m3: Memory,
                    a: nat, b: nat, size: nat)
    requires Kept(l0, l1, m0, m1) && Kept(l1, l2, m2, m3)
    requires a in l0 && a in l1 && b in l1 && b in l2 && size <= l1[b] && (l0[a] <= size || l1[b] == size)
    requires forall x: nat {:trigger m2(x)} :: b <= x < b + size ==> m2(x) == m1(a + (x - b))
    ensures Copied(m0, a, l0[a], m3, b, l1[b])
  {
    forall x: nat | b <= x < b + l0[a] && x < b + l1[b]
      ensures m3(x) == m0(a + (x - b))
    {
      assert m2(x) == m1(a + (x - b)) == m0(a + (x - b));
    }
  }

  lemma KeptAcross(l1: map<nat, nat>, l2: map<nat, nat>, m1: Memory, m2: Memory, m3: Memory, b: nat)
    requires Kept(l1 - {b}, l1, m1, m2) && Kept(l1, l2, m2, m3) && l2.Keys <= l1.Keys
    ensures Kept(l1 - {b}, l2, m1, m3)
  {
    forall a, x: nat | a in l1 - {b} && a in l2 && a <= x < a + l1[a]
      ensures m3(x) == m1(x)
    {
      assert m2(x) == m1(x);
    }
  }

  /** malloc, then the move: realloc's bytes. */
  lemma MoveKeeps(l0: map<nat, nat>, l1: map<nat, nat>, l2: map<nat, nat>, m0: Memory, m1: Memory, m3: Memory, a: nat,
                  b: nat)
    requires Kept(l0, l1, m0, m1) && Kept(l1 - {b}, l2, m1, m3)
    requires a in l0 && b !in l0 && b in l1 && l1 == l0[b := l1[b]]
    requires Copied(m1, a, l1[a], m3, b, l1[b]) && l2.Keys <= l1.Keys
    ensures Copied(m0, a, l0[a], m3, b, l1[b]) && Kept(l0, l2, m0, m3)
  {
    forall x: nat | b <= x < b + l0[a] && x < b + l1[b]
      ensures m3(x) == m0(a + (x - b))
    {
      assert m1(a + (x - b)) == m0(a + (x - b));
    }
    forall c, x: nat | c in l0 && c in l2 && c <= x < c + l0[c]
      ensures m3(x) == m0(x)
    {
      assert c in l1 - {b} && m1(x) == m0(x);
    }
  }

  lemma OnePage()
    ensures Times(1, PGSIZE) == PGSIZE
  {
  }

  /** A call, with the page palloc would give it, or a caller's store into byte i of its block. */
  datatype Op = MallocOp(size: nat, page: nat) | FreeOp(block: nat) | ReallocOp(block: nat, size: nat, page: nat)
              | StoreOp(block: nat, i: nat, value: nat)

  /** Each descriptor's blocks are twice the previous one's. */
  ghost predicate Doubling(descs: seq<Desc>) {
    && |descs| > 0 && descs[0].blockSize == 16
    && forall k :: 0 < k < |descs| ==> descs[k].blockSize == 2 * descs[k - 1].blockSize
  }

  /** d is the first descriptor whose blocks are large enough, or one past the last. */
  ghost predicate IsFit(descs: seq<Desc>, d: nat, size: nat) {
    && d <= |descs| && (d < |descs| ==> size <= descs[d].blockSize)
    && forall e :: 0 <= e < d ==> descs[e].blockSize < size
  }

  /** malloc has to ask palloc: no descriptor fits, or the free list of the one that fits is empty. */
  ghost predicate NeedsPage(free: seq<seq<nat>>, descs: seq<Desc>, size: nat)
    requires |free| == |descs|
  {
    forall d :: 0 <= d < |descs| && IsFit(descs, d, size) ==> free[d] == []
  }

  /** Block a belongs to the smallest blocks that fit. */
  ghost predicate HasBestFit(st: State, a: nat, size: nat) {
    exists d: nat :: d < |st.descs| && IsFit(st.descs, d, size) && BlockOf(st, a, d)
  }

  lemma FitUnique(descs: seq<Desc>, d: nat, size: nat)
    requires IsFit(descs, d, size) && d < |descs|
    ensures forall e: nat :: IsFit(descs, e, size) <==> e == d
  {
  }

  /** DIV_ROUND_UP. */
  function DivRoundUp(x: nat, step: nat): (n: nat)
    requires step > 0
    ensures x <= Times(n, step) && (n > 0 ==> Times(n - 1, step) < x)
  {
    (x + step - 1) / step
  }

  function PagesFor(size: nat): nat { if size <= 1024 then 1 else DivRoundUp(size + ARENA_SIZE, PGSIZE) }

  class Allocator {
    const descs: seq<Desc>
    var arenas: map<nat, Arena>
    var free: seq<seq<nat>>
    var live: map<nat, nat>
    var mem: Memory

    ghost function St(): State
      reads this
    {
      State(descs, arenas, free, live)
    }

    ghost predicate Valid()
      reads this
    {
      Inv(St()) && Doubling(descs)
    }

    /** malloc_init: seven descriptors, of 16 to 1024 bytes. */
    constructor (m: Memory)
      ensures Valid() && live == map[] && arenas == map[] && mem == m
    {
      var ds: seq<Desc> := [];
      var blockSize := 16;
      while blockSize < PGSIZE / 2
        invariant |ds| <= 7 && blockSize == [16, 32, 64, 128, 256, 512, 1024, 2048][|ds|]
        invariant forall k :: 0 <= k < |ds| ==>
          DescOk(ds[k]) && ds[k].blockSize == [16, 32, 64, 128, 256, 512, 1024, 2048][k]
        decreases PGSIZE - blockSize
      {
        ds := ds + [Desc(blockSize, (PGSIZE - ARENA_SIZE) / blockSize)];
        blockSize := blockSize * 2;
      }
      descs := ds;
      arenas := map[];
      free := seq(|ds|, _ => []);
      live := map[];
      mem := m;
    }

    /** The descriptor search of malloc. */
    method FindDesc(size: nat) returns (d: nat)
      requires Valid()
      ensures IsFit(descs, d, size)
      ensures d < |descs| <==> size <= 1024
      ensures d < |descs| ==> descs[d].blockSize == 16 || descs[d].blockSize < 2 * size
    {
      d := 0;
      while d < |descs| && descs[d].blockSize < size
        invariant d <= |descs| && forall e :: 0 <= e < d ==> descs[e].blockSize < size
      {
        d := d + 1;
      }
      assert descs[0].blockSize == 16 && descs[1].blockSize == 32 && descs[2].blockSize == 64;
      assert descs[3].blockSize == 128 && descs[4].blockSize == 256 && descs[5].blockSize == 512;
      assert descs[6].blockSize == 1024;
    }

    /** A fresh page becomes an arena, its blocks the free list. */
    method NewArena(d: nat, page: nat)
      requires Consistent(St()) && d < |free| && free[d] == [] && Fresh(St(), page, 1)
      modifies this`arenas, this`free
      ensures |free| == |descs|
      ensures St() == Changed(old(St()), d, free[d], page, Arena(Some(d), descs[d].blocksPerArena), live)
      ensures Consistent(St()) && |free[d]| > 0
      ensures page !in old(arenas) && arenas.Keys == old(arenas).Keys + {page}
    {
      FreshIsNew(St(), page, 1);
      var ds := descs[d];
      assert DescOk(ds);
      arenas := arenas[page := Arena(Some(d), ds.blocksPerArena)];
      var i := 0;
      while i < ds.blocksPerArena
        invariant i <= ds.blocksPerArena && |free| == |old(free)| && free == old(free)[d := free[d]]
        invariant arenas == old(arenas)[page := Arena(Some(d), ds.blocksPerArena)]
        invariant Distinct(free[d]) && (i > 0 ==> |free[d]| > 0)
        invariant forall x: nat :: x in free[d] <==> x in GridTo(page, ds, i)
      {
        hide *;
        GridNext(page, ds, i);
        Appended(free[d], Block(page, ds, i));
        free := free[d := free[d] + [Block(page, ds, i)]];
        i := i + 1;
      }
      assert Grid(page, ds) == GridTo(page, ds, i);
      ghost var n := Changed(old(St()), d, free[d], page, Arena(Some(d), ds.blocksPerArena), live);
      assert St() == n;
      hide *;
      NewArenaKeeps(old(St()), d, page, free[d]);
    }

    /** The first block of free list d goes to the caller. */
    method Take(d: nat, size: nat, noise: Memory) returns (b: nat)
      requires d < |free| && |free[d]| > 0 && Ready(St(), PgRoundDown(free[d][0])) && size <= descs[d].blockSize
      modifies this`arenas, this`free, this`live, this`mem
      ensures Inv(St())
      ensures b > 0 && b !in old(live) && live == old(live)[b := size]
      ensures BlockOf(St(), b, d) && arenas.Keys == old(arenas).Keys
      ensures Kept(old(live), live, old(mem), mem)
    {
      ghost var st := St();
      hide Ready, Consistent, Inv, Kept, Own, Scribble, PgRoundDown;
      TakeFirst(st, d, size);
      ghost var n := Taken(st, d, size);
      b := free[d][0];
      var a := PgRoundDown(b);
      var ar := arenas[a];
      assert n == Changed(st, d, free[d][1..], a, ar.(freeCnt := ar.freeCnt - 1), live[b := size]);
      hide BlockOf, IsSmall, Taken;
      ScribbleKeeps(st, mem, noise);
      mem := Scribble(descs, arenas, free, mem, noise);
      free := free[d := free[d][1..]];
      arenas := arenas[a := ar.(freeCnt := ar.freeCnt - 1)];
      live := live[b := size];
      assert St() == n;
      KeptMore(old(live), b, size, old(mem), mem);
    }

    /** malloc. page is what palloc would give: 0, or the address of fresh pages. */
    method Malloc(size: nat, page: nat, noise: Memory) returns (r: nat)
      requires Valid() && (page != 0 ==> Fresh(St(), page, PagesFor(size)))
      modifies this`arenas, this`free, this`live, this`mem
      ensures Valid()
      ensures Mallocs(old(Config(St(), mem)), size, page, r, Config(St(), mem))
    {
      if size == 0 {
        return 0;
      }
      assert |free| == |descs|;
      hide Consistent, DescsOk, Fresh, Own, Ready, BlockOf, Kept;
      var d := FindDesc(size);
      if d == |descs| {
        var pageCnt := DivRoundUp(size + ARENA_SIZE, PGSIZE);
        if page == 0 {
          return 0;
        }
        r := BigAlloc(page, pageCnt, size, noise);
      } else {
        FitUnique(descs, d, size);
        r := SmallAlloc(d, size, page, noise);
      }
    }

    /** The part of malloc for a descriptor that fits. */
    method SmallAlloc(d: nat, size: nat, page: nat, noise: Memory) returns (r: nat)
      requires Inv(St()) && d < |descs| && size <= descs[d].blockSize && (page != 0 ==> Fresh(St(), page, 1))
      modifies this`arenas, this`free, this`live, this`mem
      ensures Inv(St())
      ensures r == 0 <==> page == 0 && old(free)[d] == []
      ensures r == 0 ==> live == old(live) && arenas == old(arenas)
      ensures r != 0 ==> r !in old(live) && live == old(live)[r := size] && BlockOf(St(), r, d)
      ensures r != 0 ==> arenas.Keys == old(arenas).Keys + (if old(free)[d] == [] then {page} else {})
      ensures Kept(old(live), live, old(mem), mem)
    {
      ghost var st := St();
      hide Inv, Ready, Consistent, Fresh, Own, Kept, BlockOf, PgRoundDown, IsSmall;
      InvReady(st, 0);
      KeptSame(live, live, mem);
      if free[d] == [] {
        if page == 0 {
          return 0;
        }
        NewArena(d, page);
        NewReady(st, d, free[d], page);
      } else {
        InvReady(st, PgRoundDown(free[d][0]));
      }
      r := Take(d, size, noise);
    }

    method BigAlloc(page: nat, pageCnt: nat, size: nat, noise: Memory) returns (r: nat)
      requires Inv(St()) && Fresh(St(), page, pageCnt) && ARENA_SIZE + size <= Times(pageCnt, PGSIZE)
      modifies this`arenas, this`live, this`mem
      ensures Inv(St())
      ensures r == page + ARENA_SIZE && r !in old(live) && live == old(live)[r := size]
      ensures page !in old(arenas) && arenas == old(arenas)[page := Arena(None, pageCnt)]
      ensures Kept(old(live), live, old(mem), mem)
    {
      ghost var st := St();
      BigAllocKeeps(st, page, pageCnt, size);
      arenas := arenas[page := Arena(None, pageCnt)];
      r := page + ARENA_SIZE;
      live := live[r := size];
      assert Consistent(St()) && |free| == |descs|;
      hide Consistent, Fresh, Own, PgRoundDown;
      ScribbleKeeps(St(), mem, noise);
      mem := Scribble(descs, arenas, free, mem, noise);
    }

    /** An entirely free arena's blocks leave the free list and its page goes back to palloc. */
    method Release(p: nat)
      requires Consistent(St()) && IsSmall(St(), p) && arenas[p].freeCnt >= DescOf(St(), p).blocksPerArena
      modifies this`arenas, this`free
      ensures Consistent(St()) && arenas == old(arenas) - {p}
      ensures forall a :: a in live ==> PgRoundDown(a) != p
    {
      ghost var st := St();
      FullArena(st, p);
      var d := arenas[p].desc.value;
      var ds := descs[d];
      assert arenas[p].freeCnt == ds.blocksPerArena;
      assert Grid(p, ds) == GridTo(p, ds, ds.blocksPerArena);
      assert DescOk(ds) && Distinct(free[d]);
      var i := 0;
      while i < ds.blocksPerArena
        invariant i <= ds.blocksPerArena && |free| == |st.free| && free == st.free[d := free[d]]
        invariant arenas == st.arenas && Distinct(free[d])
        invariant forall x: nat :: x in free[d] <==> x in st.free[d] && x !in GridTo(p, ds, i)
      {
        var b := Block(p, ds, i);
        assert b in Grid(p, ds);
        hide *;
        GridNext(p, ds, i);
        assert b in free[d];
        WithoutFacts(free[d], b);
        free := free[d := Without(free[d], b)];
        i := i + 1;
      }
      arenas := arenas - {p};
      ghost var n := st.(free := st.free[d := free[d]], arenas := st.arenas - {p});
      assert St() == n;
      hide Consistent, Grid, GridTo;
      ReleaseKeeps(st, p, free[d]);
    }

    /** Block b goes to the front of its free list. */
    method Give(b: nat)
      requires Consistent(St()) && b in live && IsSmall(St(), PgRoundDown(b))
      modifies this`arenas, this`free, this`live
      ensures |free| == |descs| && St() == Given(old(St()), b) && Consistent(St())
    {
      ghost var st := St();
      assert |free| == |descs|;
      hide Consistent, PgRoundDown;
      GiveKeeps(st, b);
      ghost var n := Given(st, b);
      var a := PgRoundDown(b);
      var ar := arenas[a];
      var d := ar.desc.value;
      assert n == Changed(st, d, [b] + free[d], a, ar.(freeCnt := ar.freeCnt + 1), live - {b});
      hide Given, IsSmall;
      free := free[d := [b] + free[d]];
      arenas := arenas[a := ar.(freeCnt := ar.freeCnt + 1)];
      live := live - {b};
      assert St() == n;
    }

    /** Whatever the allocator leaves in its own bytes, live blocks keep theirs. */
    method Scrub(noise: Memory)
      requires Consistent(St()) && |free| == |descs|
      modifies this`mem
      ensures Kept(live, live, old(mem), mem)
    {
      hide Consistent, Own, Kept;
      ScribbleKeeps(St(), mem, noise);
      mem := Scribble(descs, arenas, free, mem, noise);
    }


    /** free. pages is how many pages go back to palloc. */
    method Free(p: nat, noise: Memory) returns (pages: nat)
      requires Valid() && (p != 0 ==> p in live)
      modifies this`arenas, this`free, this`live, this`mem
      ensures Valid() && Frees(old(Config(St(), mem)), p, pages, Config(St(), mem))
    {
      NullNotLive(St());
      if p == 0 {
        KeptSame(live, live, mem);
        return 0;
      }
      var a := PgRoundDown(p);
      assert LiveOk(St(), p);
      hide Inv, Consistent, PgRoundDown, Times, Kept, Own;
      if arenas[a].desc.None? {
        pages := BigFree(p);
      } else {
        pages := SmallFree(p, noise);
        OnePage();
      }
    }

    /** The part of free for a big block. */
    method BigFree(p: nat) returns (pages: nat)
      requires Inv(St()) && p in live && IsBig(St(), PgRoundDown(p))
      modifies this`arenas, this`live
      ensures Inv(St()) && pages > 0 && Frees(old(Config(St(), mem)), p, pages, Config(St(), mem))
    {
      ghost var st := St();
      InvReady(st, PgRoundDown(p));
      hide Inv, Consistent, Ready, PgRoundDown, Times, Kept;
      BigFreeKeeps(st, p);
      var a := PgRoundDown(p);
      BigHasPages(st, a);
      pages := arenas[a].freeCnt;
      arenas := arenas - {a};
      live := live - {p};
      ReleasedInv(st, a, St());
      KeptSame(old(live), live, mem);
    }


    /** The part of free for a block of an arena. */
    method SmallFree(p: nat, noise: Memory) returns (pages: nat)
      requires Inv(St()) && p in live && IsSmall(St(), PgRoundDown(p))
      modifies this`arenas, this`free, this`live, this`mem
      ensures Inv(St()) && live == old(live) - {p}
      ensures pages == if (forall a :: a in live ==> PgRoundDown(a) != PgRoundDown(p)) then 1 else 0
      ensures arenas.Keys == old(arenas).Keys - (if pages == 0 then {} else {PgRoundDown(p)})
      ensures Kept(old(live), live, old(mem), mem)
    {
      ghost var st := St();
      assert Consistent(st);
      hide Consistent, Grid, PgRoundDown, Times, Kept, Own;
      Give(p);
      Scrub(noise);
      KeptLess(old(live), live, old(mem), mem);
      ghost var n := St();
      GivenReady(st, p);
      var a := PgRoundDown(p);
      pages := 0;
      if arenas[a].freeCnt >= descs[arenas[a].desc.value].blocksPerArena {
        Release(a);
        ReleasedInv(n, a, St());
        pages := 1;
      } else {
        ArenaHasLive(n, a);
      }
    }

    /** memcpy between blocks that do not overlap. */
    method Copy(dst: nat, src: nat, size: nat)
      requires dst + size <= src || src + size <= dst
      modifies this`mem
      ensures forall x: nat {:trigger mem(x)} :: dst <= x < dst + size ==> mem(x) == old(mem)(src + (x - dst))
      ensures forall x: nat :: x < dst || dst + size <= x ==> mem(x) == old(mem)(x)
    {
      var i := 0;
      while i < size
        invariant i <= size
        invariant forall x: nat {:trigger mem(x)} :: dst <= x < dst + i ==> mem(x) == old(mem)(src + (x - dst))
        invariant forall x: nat :: x < dst || dst + i <= x ==> mem(x) == old(mem)(x)
      {
        var m, v := mem, mem(src + i);
        mem := x => if x == dst + i then v else m(x);
        i := i + 1;
      }
    }

    /** realloc. */
    method Realloc(oldBlock: nat, newSize: nat, page: nat, noise: Memory) returns (r: nat)
      requires Valid() && (oldBlock != 0 ==> oldBlock in live)
      requires page != 0 ==> Fresh(St(), page, PagesFor(newSize))
      modifies this`arenas, this`free, this`live, this`mem
      ensures Valid()
      ensures Reallocs(old(Config(St(), mem)), oldBlock, newSize, page, r, Config(St(), mem))
    {
      ghost var a := Config(St(), mem);
      InvReady(St(), 0);
      NullNotLive(St());
      hide Inv, Fresh, Kept, Copied, Mallocs, Frees, Reallocs;
      if newSize == 0 {
        var pages := Free(oldBlock, noise);
        ReallocFrees(a, oldBlock, page, pages, Config(St(), mem));
        return 0;
      }
      r := Malloc(newSize, page, noise);
      ghost var b := Config(St(), mem);
      ReallocMallocs(a, oldBlock, newSize, page, r, b);
      if oldBlock != 0 && r != 0 {
        MoveBlock(oldBlock, r, noise);
        ReallocMoves(a, oldBlock, newSize, page, r, b, Config(St(), mem));
      }
    }

    /** realloc's memcpy to the new block and free of the old one. */
    method MoveBlock(oldBlock: nat, r: nat, noise: Memory)
      requires Valid() && oldBlock in live && r in live && oldBlock != r
      modifies this`arenas, this`free, this`live, this`mem
      ensures Valid() && live == old(live) - {oldBlock}
      ensures Copied(old(mem), oldBlock, old(live)[oldBlock], mem, r, old(live)[r])
      ensures Kept(old(live) - {r}, live, old(mem), mem)
    {
      ghost var st, m := St(), mem;
      InvReady(st, 0);
      NullNotLive(st);
      CapacityApart(st, oldBlock, r);
      hide Inv, Consistent, Ready, Own, PgRoundDown, Kept, Copied, Times;
      var newSize := live[r];
      var oldSize := Capacity(descs, arenas, oldBlock);
      var minSize := if newSize < oldSize then newSize else oldSize;
      Copy(r, oldBlock, minSize);
      CopyKeeps(st, r, minSize, m, mem);
      ghost var m2 := mem;
      var _ := Free(oldBlock, noise);
      KeptSame(st.live, st.live, m);
      CopyArrives(st.live, st.live, live, m, m, m2, mem, oldBlock, r, minSize);
      KeptAcross(st.live, live, m, m2, mem, r);
    }


    method Step(op: Op, noise: Memory) returns (r: nat)
      requires Valid() && LegalStep(State(descs, arenas, free, live), op)
      modifies this`arenas, this`free, this`live, this`mem
      ensures Valid() && Next(old(Config(St(), mem)), op, r, Config(St(), mem))
    {
      hide Inv, Fresh, Own, NeedsPage, HasBestFit, PgRoundDown, Times, Kept, Copied;
      match op {
        case MallocOp(size, page) => r := Malloc(size, page, noise);
        case FreeOp(p) => r := Free(p, noise);
        case ReallocOp(p, size, page) => r := Realloc(p, size, page, noise);
        case StoreOp(a, i, v) =>
          mem := Stored(mem, a + i, v);
          r := 0;
      }
    }

    /** Every sequence of calls and stores, up to a call that breaks its contract: each state follows from the
        one before by its call and result, and is safe. */
    method Run(ops: seq<Op>, noise: nat -> Memory) returns (done: nat, results: seq<nat>, ghost states: seq<Config>)
      requires Valid()
      modifies this`arenas, this`free, this`live, this`mem
      ensures Valid() && done <= |ops| && |results| == done && |states| == done + 1
      ensures states[0] == old(Config(St(), mem)) && states[done] == Config(St(), mem)
      ensures IsTrace(states, ops, results)
      ensures done < |ops| ==> !LegalStep(St(), ops[done])
    {
      hide Inv, Next, LegalStep, Safe;
      done, results, states := 0, [], [Config(St(), mem)];
      SafeNow();
      while done < |ops| && LegalStep(State(descs, arenas, free, live), ops[done])
        invariant Valid() && done <= |ops| && |results| == done && |states| == done + 1
        invariant states[0] == old(Config(St(), mem)) && states[done] == Config(St(), mem)
        invariant IsTrace(states, ops, results)
      {
        var r := Step(ops[done], noise(done));
        SafeNow();
        results, states := results + [r], states + [Config(St(), mem)];
        done := done + 1;
      }
    }

    lemma SafeNow()
      requires Valid()
      ensures Safe(St())
    {
      hide Inv, Safe;
      InvIsSafe(St());
    }
  }

  // ----- Runs -----

  /** The allocator and all of memory. */
  datatype Config = Config(st: State, mem: Memory)

  function Stored(mem: Memory, x: nat, v: nat): Memory { y => if y == x then v else mem(y) }

  /** The caller's and palloc's side of the contract for one step. */
  predicate LegalStep(st: State, op: Op) {
    match op
    case MallocOp(size, page) => page != 0 ==> Fresh(st, page, PagesFor(size))
    case FreeOp(p) => p != 0 ==> p in st.live
    case ReallocOp(p, size, page) => (p != 0 ==> p in st.live) && (page != 0 ==> Fresh(st, page, PagesFor(size)))
    case StoreOp(a, i, _) => a in st.live && i < st.live[a]
  }

  /** malloc's result and effect. */
  ghost predicate Mallocs(a: Config, size: nat, page: nat, r: nat, b: Config) {
    && |a.st.free| == |a.st.descs|
    && (r == 0 <==> size == 0 || (page == 0 && NeedsPage(a.st.free, a.st.descs, size)))
    && (r == 0 ==> b.st.live == a.st.live && b.st.arenas == a.st.arenas)
    && (r != 0 ==> r !in a.st.live && b.st.live == a.st.live[r := size])
    && (r != 0 && size <= 1024 ==> HasBestFit(b.st, r, size))
    && (r != 0 ==>
          b.st.arenas.Keys == a.st.arenas.Keys + (if NeedsPage(a.st.free, a.st.descs, size) then {page} else {}))
    && Kept(a.st.live, b.st.live, a.mem, b.mem)
  }

  /** free's effect, and how many pages go back. */
  ghost predicate Frees(a: Config, p: nat, pages: nat, b: Config) {
    && b.st.live == a.st.live - {p}
    && (pages > 0 <==> p != 0 && forall x :: x in b.st.live ==> PgRoundDown(x) != PgRoundDown(p))
    && (pages == 0 ==> b.st.arenas.Keys == a.st.arenas.Keys)
    && (pages > 0 ==> PgRoundDown(p) in a.st.arenas && b.st.arenas.Keys == a.st.arenas.Keys - {PgRoundDown(p)}
                      && Times(pages, PGSIZE) == Extent(a.st.arenas[PgRoundDown(p)]))
    && Kept(a.st.live, b.st.live, a.mem, b.mem)
  }

  /** realloc's result and effect. */
  ghost predicate Reallocs(a: Config, p: nat, size: nat, page: nat, r: nat, b: Config) {
    && |a.st.free| == |a.st.descs|
    && (r == 0 <==> size == 0 || (page == 0 && NeedsPage(a.st.free, a.st.descs, size)))
    && (size == 0 ==> b.st.live == a.st.live - {p})
    && (size > 0 && r == 0 ==> b.st.live == a.st.live)
    && (r != 0 ==> r !in a.st.live && b.st.live == a.st.live[r := size] - {p})
    && (r != 0 && p != 0 ==> p in a.st.live && Copied(a.mem, p, a.st.live[p], b.mem, r, size))
    && Kept(a.st.live, b.st.live, a.mem, b.mem)
  }

  lemma ReallocFrees(a: Config, p: nat, page: nat, pages: nat, b: Config)
    requires Frees(a, p, pages, b) && |a.st.free| == |a.st.descs|
    ensures Reallocs(a, p, 0, page, 0, b)
  {
  }

  lemma ReallocMallocs(a: Config, p: nat, size: nat, page: nat, r: nat, b: Config)
    requires Mallocs(a, size, page, r, b) && size > 0 && 0 !in a.st.live && (p != 0 ==> p in a.st.live)
    ensures p == 0 || r == 0 ==> Reallocs(a, p, size, page, r, b)
    ensures p != 0 && r != 0 ==> p in b.st.live && r in b.st.live && p != r
  {
    hide NeedsPage, Kept, HasBestFit;
  }

  lemma ReallocMoves(a: Config, p: nat, size: nat, page: nat, r: nat, b: Config, c: Config)
    requires Mallocs(a, size, page, r, b) && r != 0 && p != 0 && p in a.st.live && p in b.st.live && r in b.st.live
    requires c.st.live == b.st.live - {p} && Copied(b.mem, p, b.st.live[p], c.mem, r, b.st.live[r])
    requires Kept(b.st.live - {r}, c.st.live, b.mem, c.mem)
    ensures Reallocs(a, p, size, page, r, c)
  {
    hide NeedsPage, Kept, HasBestFit, Copied;
    MoveKeeps(a.st.live, b.st.live, c.st.live, a.mem, b.mem, c.mem, p, r);
  }

  ghost predicate Next(a: Config, op: Op, r: nat, b: Config) {
    LegalStep(a.st, op) && match op
      case MallocOp(size, page) => Mallocs(a, size, page, r, b)
      case FreeOp(p) => Frees(a, p, r, b)
      case ReallocOp(p, size, page) => Reallocs(a, p, size, page, r, b)
      case StoreOp(p, i, v) => b.st == a.st && b.mem == Stored(a.mem, p + i, v)
  }

  /** states are the ones passed through by the first |states| - 1 steps, each safe. */
  ghost predicate IsTrace(states: seq<Config>, ops: seq<Op>, results: seq<nat>) {
    && 0 < |states| <= |ops| + 1 && |results| == |states| - 1
    && (forall i :: 0 <= i < |states| ==> Safe(states[i].st))
    && (forall i :: 0 <= i < |results| ==> Next(states[i], ops[i], results[i], states[i + 1]))
  }

  /** Block a is live from state i through state j, and its caller stores nothing into it meanwhile. */
  ghost predicate Untouched(states: seq<Config>, ops: seq<Op>, a: nat, i: nat, j: nat)
    requires i <= j < |states| <= |ops| + 1
  {
    && (forall k :: i <= k <= j ==> a in states[k].st.live)
    && (forall k :: i <= k < j ==> !(ops[k].StoreOp? && ops[k].block == a))
  }

  lemma StepKeeps(a: Config, op: Op, r: nat, b: Config, p: nat)
    requires Next(a, op, r, b) && Safe(a.st) && p in a.st.live && p in b.st.live && !(op.StoreOp? && op.block == p)
    ensures b.st.live[p] == a.st.live[p]
    ensures forall x: nat {:trigger b.mem(x)} :: p <= x < p + a.st.live[p] ==> b.mem(x) == a.mem(x)
  {
    hide NeedsPage, HasBestFit, PgRoundDown, Counted, Copied;
  }

  /** Whatever else is allocated, freed, moved or written, a live block keeps its size and its bytes until its
      caller changes them. */
  lemma {:induction false} BytesLast(states: seq<Config>, ops: seq<Op>, results: seq<nat>, a: nat, i: nat, j: nat)
    requires IsTrace(states, ops, results) && i <= j < |states| && Untouched(states, ops, a, i, j)
    ensures a in states[i].st.live && a in states[j].st.live && states[j].st.live[a] == states[i].st.live[a]
    ensures forall x: nat {:trigger states[j].mem(x)} ::
      a <= x < a + states[i].st.live[a] ==> states[j].mem(x) == states[i].mem(x)
    decreases j - i
  {
    hide Next, Safe;
    if i < j {
      BytesLast(states, ops, results, a, i, j - 1);
      assert Next(states[j - 1], ops[j - 1], results[j - 1], states[j]);
      StepKeeps(states[j - 1], ops[j - 1], results[j - 1], states[j], a);
    }
  }
}
