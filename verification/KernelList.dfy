/** Orders and natural runs on sequences: what the list sort relies on, independent of pointers.
    Index ranges are half open; the list code keeps its sentinels at both ends of the sequence. */
module ListOrder {
  import opened Basics

  ghost predicate Disjoint<E>(s: seq<E>, t: seq<E>) {
    forall i, j :: 0 <= i < |s| && 0 <= j < |t| ==> s[i] != t[j]
  }

  /** `s` without [j, l). */
  ghost function Cut<E>(s: seq<E>, j: nat, l: nat): (r: seq<E>)
    requires j <= l <= |s|
    ensures |r| == |s| - (l - j)
    ensures forall i {:trigger r[i]} :: 0 <= i < j ==> r[i] == s[i]
    ensures forall i :: j <= i < |r| ==> r[i] == s[i + (l - j)]
  {
    s[..j] + s[l..]
  }

  /** `s` with `b` inserted at position p. */
  ghost function Paste<E>(s: seq<E>, b: seq<E>, p: nat): (r: seq<E>)
    requires p <= |s|
    ensures |r| == |s| + |b|
    ensures forall i {:trigger r[i]} :: 0 <= i < p ==> r[i] == s[i]
    ensures forall i :: p <= i < p + |b| ==> r[i] == b[i - p]
    ensures forall i :: p + |b| <= i < |r| ==> r[i] == s[i - |b|]
  {
    s[..p] + b + s[p..]
  }

  /** `e` between the sentinels h and t. */
  ghost function Framed<E>(h: E, e: seq<E>, t: E): (r: seq<E>)
    ensures |r| == |e| + 2 && r[0] == h && r[|e| + 1] == t
    ensures forall i {:trigger r[i]} :: 0 < i <= |e| ==> r[i] == e[i - 1]
  {
    [h] + e + [t]
  }

  ghost function Reversed<E>(s: seq<E>): (r: seq<E>)
    ensures |r| == |s|
    ensures forall i {:trigger r[i]} :: 0 <= i < |r| ==> r[i] == s[|s| - 1 - i]
  {
    seq(|s|, i requires 0 <= i < |s| => s[|s| - 1 - i])
  }

  lemma DistinctReversed<E>(h: E, e: seq<E>, t: E)
    requires Distinct(Framed(h, e, t))
    ensures Distinct(Framed(h, Reversed(e), t))
  {
    var s, r := Framed(h, e, t), Framed(h, Reversed(e), t);
    forall i, j | 0 <= i < j < |r|
      ensures r[i] != r[j]
    {
      var i' := if i == 0 then 0 else |e| + 1 - i;
      var j' := if j == |e| + 1 then j else |e| + 1 - j;
      assert r[i] == s[i'] && r[j] == s[j'];
    }
  }

  lemma DistinctCut<E>(s: seq<E>, j: nat, l: nat)
    requires j <= l <= |s| && Distinct(s)
    ensures Distinct(Cut(s, j, l)) && Distinct(s[j..l]) && Disjoint(s[j..l], Cut(s, j, l))
  {
  }

  lemma DistinctPaste<E>(s: seq<E>, b: seq<E>, p: nat)
    requires p <= |s| && Distinct(s) && Distinct(b) && Disjoint(b, s)
    ensures Distinct(Paste(s, b, p))
  {
  }

  /** `less` and its complement are transitive along x, y, z. */
  ghost predicate Transitive<E>(less: (E, E) -> bool, x: E, y: E, z: E) {
    && (less(x, y) && less(y, z) ==> less(x, z))
    && (!less(x, y) && !less(y, z) ==> !less(x, z))
  }

  /** `less` is a strict weak order on the elements of `d`. */
  ghost predicate StrictWeakOrder<E>(less: (E, E) -> bool, d: set<E>) {
    && (forall x | x in d :: !less(x, x))
    && (forall x, y, z | x in d && y in d && z in d :: Transitive(less, x, y, z))
  }

  /** All elements of `s` in [lo, hi) belong to `d`. */
  ghost predicate Within<E>(s: seq<E>, d: set<E>, lo: nat, hi: nat)
    requires hi <= |s|
  {
    forall i :: lo <= i < hi ==> s[i] in d
  }

  ghost predicate Sorted<E>(less: (E, E) -> bool, s: seq<E>, lo: nat, hi: nat)
    requires hi <= |s|
  {
    forall i, j :: lo <= i < j < hi ==> !less(s[j], s[i])
  }

  /** Equivalent elements appear in increasing `rank`. */
  ghost predicate Stable<E>(less: (E, E) -> bool, rank: E -> int, s: seq<E>, lo: nat, hi: nat)
    requires hi <= |s|
  {
    forall i, j :: lo <= i < j < hi && !less(s[i], s[j]) && !less(s[j], s[i]) ==> rank(s[i]) < rank(s[j])
  }

  /** Number of descents s[k] < s[k-1] with both positions in [lo, hi). */
  ghost function Descents<E>(less: (E, E) -> bool, s: seq<E>, lo: nat, hi: nat): nat
    requires hi <= |s|
    decreases hi
  {
    if hi <= lo + 1 then 0
    else Descents(less, s, lo, hi - 1) + if less(s[hi - 1], s[hi - 2]) then 1 else 0
  }

  /** Number of maximal nondecreasing runs in [lo, hi). */
  ghost function Runs<E>(less: (E, E) -> bool, s: seq<E>, lo: nat, hi: nat): nat
    requires hi <= |s|
  {
    if hi <= lo then 0 else Descents(less, s, lo, hi) + 1
  }

  lemma {:induction false} DescentsSplit<E>(less: (E, E) -> bool, s: seq<E>, lo: nat, mid: nat, hi: nat)
    requires lo < mid < hi <= |s|
    ensures Descents(less, s, lo, hi)
         == Descents(less, s, lo, mid + 1) + Descents(less, s, mid, hi)
    decreases hi
  {
    if hi > mid + 1 {
      DescentsSplit(less, s, lo, mid, hi - 1);
    }
  }

  lemma {:induction false} DescentsEqual<E>(less: (E, E) -> bool, s: seq<E>, t: seq<E>, lo: nat, hi: nat)
    requires hi <= |s| && hi <= |t|
    requires forall k :: lo <= k < hi ==> s[k] == t[k]
    ensures Descents(less, s, lo, hi) == Descents(less, t, lo, hi)
    decreases hi
  {
    if hi > lo + 1 {
      DescentsEqual(less, s, t, lo, hi - 1);
    }
  }

  lemma {:induction false} SortedNoDescents<E>(less: (E, E) -> bool, s: seq<E>, lo: nat, hi: nat)
    requires hi <= |s|
    requires Sorted(less, s, lo, hi)
    ensures Descents(less, s, lo, hi) == 0
    decreases hi
  {
    if hi > lo + 1 {
      SortedNoDescents(less, s, lo, hi - 1);
    }
  }

  lemma {:induction false} NoDescentsSorted<E>(less: (E, E) -> bool, d: set<E>, s: seq<E>, lo: nat, hi: nat)
    requires hi <= |s|
    requires StrictWeakOrder(less, d) && Within(s, d, lo, hi)
    requires Descents(less, s, lo, hi) == 0
    ensures Sorted(less, s, lo, hi)
    decreases hi
  {
    if hi > lo + 1 {
      NoDescentsSorted(less, d, s, lo, hi - 1);
      forall i | lo <= i < hi - 1
        ensures !less(s[hi - 1], s[i])
      {
        if i < hi - 2 {
          assert Transitive(less, s[hi - 1], s[hi - 2], s[i]);
        }
      }
    }
  }

  /** `s` with the block [j, l) moved in front of what is at position p once the block is out. */
  ghost function Move<E>(s: seq<E>, j: nat, l: nat, p: nat): seq<E>
    requires j <= l <= |s| && p <= |s| - (l - j)
  {
    Paste(Cut(s, j, l), s[j..l], p)
  }

  lemma EmptyMove<E>(s: seq<E>, b: seq<E>, j: nat, p: nat)
    requires j <= |s| && p <= |s| && b == []
    ensures Cut(s, j, j) == s && Paste(s, b, p) == s && Move(s, j, j, p) == s
  {
  }

  lemma CutPasteMultiset<E>(s: seq<E>, j: nat, l: nat, b: seq<E>, p: nat)
    requires j <= l <= |s| && p <= |s|
    ensures multiset(Cut(s, j, l)) + multiset(s[j..l]) == multiset(s)
    ensures multiset(Paste(s, b, p)) == multiset(s) + multiset(b)
  {
    assert s == s[..j] + s[j..l] + s[l..];
    assert s == s[..p] + s[p..];
  }

  lemma MovePermutes<E>(s: seq<E>, j: nat, l: nat, p: nat)
    requires j <= l <= |s| && p <= |s| - (l - j)
    ensures multiset(Move(s, j, l, p)) == multiset(s)
  {
    CutPasteMultiset(s, j, l, [], 0);
    CutPasteMultiset(Cut(s, j, l), 0, 0, s[j..l], p);
  }

  /** The state of the in-place merge: [lo, p) is merged, [p, q) is left of the first run,
      [q, r) is left of the second. */
  ghost predicate Merging<E>(less: (E, E) -> bool, s: seq<E>, lo: nat, p: nat, q: nat, r: nat) {
    && lo <= p <= q <= r <= |s|
    && Sorted(less, s, lo, q)
    && Sorted(less, s, q, r)
    && forall i, k :: lo <= i < p && q <= k < r ==> !less(s[k], s[i])
  }

  lemma MergeKeepFirst<E>(less: (E, E) -> bool, d: set<E>, s: seq<E>, lo: nat, p: nat, q: nat, r: nat)
    requires Merging(less, s, lo, p, q, r) && p < q < r
    requires StrictWeakOrder(less, d) && Within(s, d, lo, r)
    requires !less(s[q], s[p])
    ensures Merging(less, s, lo, p + 1, q, r)
  {
  }

  /** `t` is `s` with the element at q moved in front of position p. */
  ghost predicate MovedBack<E>(s: seq<E>, t: seq<E>, p: nat, q: nat) {
    && p < q < |s| == |t|
    && (forall i {:trigger t[i]} :: 0 <= i < p || q < i < |s| ==> t[i] == s[i])
    && t[p] == s[q]
    && (forall i :: p < i <= q ==> t[i] == s[i - 1])
  }

  lemma MoveBackOne<E>(s: seq<E>, p: nat, q: nat)
    requires p < q < |s|
    ensures MovedBack(s, Move(s, q, q + 1, p), p, q)
    ensures multiset(Move(s, q, q + 1, p)) == multiset(s)
  {
    MovePermutes(s, q, q + 1, p);
  }

  /** The element taken from the second run is below everything it jumps over. */
  lemma TakenIsBelow<E>(less: (E, E) -> bool, d: set<E>, s: seq<E>, lo: nat, p: nat, q: nat, r: nat)
    requires Merging(less, s, lo, p, q, r) && p < q < r
    requires StrictWeakOrder(less, d) && Within(s, d, lo, r)
    requires less(s[q], s[p])
    ensures forall i :: p <= i < q ==> less(s[q], s[i]) && !less(s[i], s[q])
  {
  }

  lemma MergeTakeSecond<E>(less: (E, E) -> bool, s: seq<E>, t: seq<E>, lo: nat, p: nat, q: nat, r: nat)
    requires Merging(less, s, lo, p, q, r) && p < q < r
    requires forall i :: p <= i < q ==> less(s[q], s[i]) && !less(s[i], s[q])
    requires MovedBack(s, t, p, q)
    ensures Merging(less, t, lo, p + 1, q + 1, r)
  {
  }

  lemma MergeDone<E>(less: (E, E) -> bool, s: seq<E>, lo: nat, p: nat, q: nat, r: nat)
    requires Merging(less, s, lo, p, q, r)
    requires p == q || q == r
    ensures Sorted(less, s, lo, r)
  {
  }

  /** What every step of the sort keeps: the same elements between the same sentinels, equivalent
      ones in the order given by `rank`. */
  ghost predicate Rearranged<E>(less: (E, E) -> bool, rank: E -> int, d: set<E>, s0: seq<E>, s: seq<E>) {
    && |s| == |s0| >= 2 && s[0] == s0[0] && s[|s| - 1] == s0[|s| - 1]
    && multiset(s) == multiset(s0)
    && Within(s, d, 1, |s| - 1)
    && Stable(less, rank, s, 1, |s| - 1)
  }

  lemma MoveRearranges<E>(less: (E, E) -> bool, rank: E -> int, d: set<E>, s0: seq<E>, s: seq<E>, t: seq<E>, p: nat,
                          q: nat)
    requires Rearranged(less, rank, d, s0, s)
    requires 1 <= p < q < |s| - 1
    requires MovedBack(s, t, p, q) && multiset(t) == multiset(s)
    requires forall i :: p <= i < q ==> less(s[q], s[i]) && !less(s[i], s[q])
    ensures Rearranged(less, rank, d, s0, t)
  {
  }

  /** One move of the in-place merge. */
  lemma TakeSecond<E>(less: (E, E) -> bool, rank: E -> int, d: set<E>, s0: seq<E>, s: seq<E>, t: seq<E>,
                      lo: nat, p: nat, q: nat, r: nat)
    requires Rearranged(less, rank, d, s0, s) && StrictWeakOrder(less, d)
    requires 1 <= lo <= p < q < r < |s|
    requires Merging(less, s, lo, p, q, r) && less(s[q], s[p])
    requires MovedBack(s, t, p, q) && multiset(t) == multiset(s)
    ensures Rearranged(less, rank, d, s0, t)
    ensures Merging(less, t, lo, p + 1, q + 1, r)
  {
    TakenIsBelow(less, d, s, lo, p, q, r);
    MergeTakeSecond(less, s, t, lo, p, q, r);
    MoveRearranges(less, rank, d, s0, s, t, p, q);
  }

  /** The state between two merges of one pass over `s0`: [1, p) holds `cnt` merged runs, the rest
      is as it was, and each merged run used up two runs of `s0`. */
  ghost predicate PassUpTo<E>(less: (E, E) -> bool, s0: seq<E>, s: seq<E>, p: nat, cnt: nat) {
    && 1 <= p < |s| == |s0|
    && (forall i :: p <= i < |s| ==> s[i] == s0[i])
    && (cnt == 0 <==> p == 1)
    && Runs(less, s, 1, p) <= cnt
    && (p < |s| - 1 ==> Descents(less, s0, 1, p + 1) == 2 * cnt)
    && (p == |s| - 1 ==> Runs(less, s0, 1, p) == 2 * cnt)
  }

  /** Two adjacent runs [p, q) and [q, r) of the untouched part, merged into one. */
  lemma PassStep<E>(less: (E, E) -> bool, s0: seq<E>, s: seq<E>, t: seq<E>, p: nat, q: nat, r: nat, cnt: nat)
    requires PassUpTo(less, s0, s, p, cnt) && p < q < r < |s|
    requires Descents(less, s, p, q) == 0 && Descents(less, s, q, r) == 0
    requires less(s[q], s[q - 1]) && (r < |s| - 1 ==> less(s[r], s[r - 1]))
    requires |t| == |s| && (forall i :: 0 <= i < p || r <= i < |t| ==> t[i] == s[i])
    requires Sorted(less, t, p, r)
    ensures PassUpTo(less, s0, t, r, cnt + 1)
  {
    SortedNoDescents(less, t, p, r);
    DescentsEqual(less, s, t, 1, p);
    DescentsEqual(less, s, s0, p, q);
    DescentsEqual(less, s, s0, q, r);
    if p > 1 {
      DescentsSplit(less, t, 1, p, r);
      DescentsSplit(less, s0, 1, p, q);
    }
    DescentsSplit(less, s0, 1, q, r);
  }

  /** The last run has no partner. */
  lemma PassLast<E>(less: (E, E) -> bool, s0: seq<E>, s: seq<E>, p: nat, end: nat, cnt: nat)
    requires PassUpTo(less, s0, s, p, cnt) && p < end == |s| - 1
    requires Descents(less, s, p, end) == 0
    ensures Runs(less, s, 1, |s0| - 1) <= cnt + 1
    ensures Runs(less, s0, 1, |s0| - 1) == 2 * cnt + 1
  {
    DescentsEqual(less, s, s0, p, |s| - 1);
    if p > 1 {
      DescentsSplit(less, s, 1, p, |s| - 1);
      DescentsSplit(less, s0, 1, p, |s| - 1);
    }
  }

  /** Where `x` stands in `s`, or -1. */
  ghost function Position<E>(s: seq<E>, x: E): int {
    if x in s then var i :| 0 <= i < |s| && s[i] == x; i else -1
  }

  ghost function Members<E>(s: seq<E>): set<E> {
    set x | x in s
  }

  ghost function PositionIn<E>(s: seq<E>): E -> int {
    x => Position(s, x)
  }

  lemma SortStart<E>(less: (E, E) -> bool, d: set<E>, elems: seq<E>, s: seq<E>)
    requires |s| >= 2 && s == Framed(s[0], elems, s[|s| - 1]) && Distinct(s) && d == Members(elems)
    ensures Rearranged(less, PositionIn(elems), d, s, s)
  {
    forall i | 0 <= i < |elems|
      ensures Position(elems, elems[i]) == i && elems[i] in d
    {
      assert elems[i] in elems;
      assert forall j :: 0 <= j < |elems| ==> s[j + 1] == elems[j];
    }
    forall i | 1 <= i < |s| - 1
      ensures Position(elems, s[i]) == i - 1 && s[i] in d
    {
      assert s[i] == elems[i - 1];
    }
  }

  lemma SortEnd<E>(less: (E, E) -> bool, rank: E -> int, d: set<E>, elems0: seq<E>, s0: seq<E>, s: seq<E>,
                   elems: seq<E>)
    requires |s0| >= 2 && s0 == Framed(s0[0], elems0, s0[|s0| - 1])
    requires Rearranged(less, rank, d, s0, s) && Sorted(less, s, 1, |s| - 1)
    requires elems == s[1..|s| - 1]
    ensures multiset(elems) == multiset(elems0)
    ensures Sorted(less, elems, 0, |elems|) && Stable(less, rank, elems, 0, |elems|)
    ensures s == Framed(s[0], elems, s[|s| - 1])
  {
    assert s == [s[0]] + elems + [s[|s| - 1]];
    assert s0 == [s[0]] + elems0 + [s[|s| - 1]];
    SameInside(elems0, elems, [s[0]], [s[|s| - 1]]);
    assert forall i :: 0 <= i < |elems| ==> elems[i] == s[i + 1];
  }

  lemma SameInside<E>(s: seq<E>, t: seq<E>, h: seq<E>, e: seq<E>)
    requires multiset(h + s + e) == multiset(h + t + e)
    ensures multiset(s) == multiset(t)
  {
    assert multiset(h + s + e) == multiset(h) + multiset(s) + multiset(e);
    assert multiset(h + t + e) == multiset(h) + multiset(t) + multiset(e);
    assert multiset(s) == multiset(h + s + e) - multiset(h) - multiset(e);
    assert multiset(t) == multiset(h + t + e) - multiset(h) - multiset(e);
  }

  /** Sorted and stable leave no choice: at most one arrangement of the elements qualifies. */
  lemma {:induction false} StableSortUnique<E>(less: (E, E) -> bool, rank: E -> int, d: set<E>, s: seq<E>, t: seq<E>)
    requires StrictWeakOrder(less, d) && Within(s, d, 0, |s|) && Within(t, d, 0, |t|)
    requires multiset(s) == multiset(t) && Distinct(s)
    requires Sorted(less, s, 0, |s|) && Stable(less, rank, s, 0, |s|)
    requires Sorted(less, t, 0, |t|) && Stable(less, rank, t, 0, |t|)
    ensures s == t
  {
    if s == [] {
      assert t == [];
    } else {
      assert t != [];
      FirstIsSame(less, rank, d, s, t);
      assert s == [s[0]] + s[1..] && t == [t[0]] + t[1..];
      SameInside(s[1..], t[1..], [s[0]], []);
      TailOrdered(less, rank, d, s);
      TailOrdered(less, rank, d, t);
      hide Sorted, Stable, Within, StrictWeakOrder;
      StableSortUnique(less, rank, d, s[1..], t[1..]);
    }
  }

  lemma FirstIsSame<E>(less: (E, E) -> bool, rank: E -> int, d: set<E>, s: seq<E>, t: seq<E>)
    requires StrictWeakOrder(less, d) && Within(s, d, 0, |s|) && Within(t, d, 0, |t|)
    requires multiset(s) == multiset(t) && s != [] && t != []
    requires Sorted(less, s, 0, |s|) && Stable(less, rank, s, 0, |s|)
    requires Sorted(less, t, 0, |t|) && Stable(less, rank, t, 0, |t|)
    ensures s[0] == t[0]
  {
    assert t[0] in multiset(s) && s[0] in multiset(t);
    var i :| 0 <= i < |s| && s[i] == t[0];
    var j :| 0 <= j < |t| && t[j] == s[0];
  }

  lemma TailOrdered<E>(less: (E, E) -> bool, rank: E -> int, d: set<E>, s: seq<E>)
    requires s != [] && Within(s, d, 0, |s|) && Sorted(less, s, 0, |s|) && Stable(less, rank, s, 0, |s|)
    ensures var t := s[1..]; Within(t, d, 0, |t|) && Sorted(less, t, 0, |t|) && Stable(less, rank, t, 0, |t|)
  {
  }

  /** Inserting in front of the first strictly greater element keeps the order. */
  lemma InsertKeepsSorted<E>(less: (E, E) -> bool, d: set<E>, s: seq<E>, x: E, k: nat)
    requires StrictWeakOrder(less, d) && Within(s, d, 0, |s|) && x in d
    requires k <= |s| && Sorted(less, s, 0, |s|)
    requires forall i :: 0 <= i < k ==> !less(x, s[i])
    requires k < |s| ==> less(x, s[k])
    ensures Sorted(less, Paste(s, [x], k), 0, |s| + 1)
  {
  }
}

/** The kernel's doubly linked list: elements embedded in other structures, with a head and a tail
    sentinel.  A list is described by the sequence of all its nodes, sentinels included. */
module KernelList {
  import opened Basics
  import opened ListOrder

  class Elem {
    var prev: Elem?
    var next: Elem?
  }

  /** `s` is head, elements and tail of one list; prev and next are mutual inverses along it. */
  ghost predicate Linked(s: seq<Elem>)
    reads s
  {
    && |s| >= 2
    && Distinct(s)
    && s[0].prev == null
    && s[|s| - 1].next == null
    && (forall i {:trigger s[i].next} :: 0 <= i < |s| - 1 ==> s[i].next == s[i + 1])
    && (forall i {:trigger s[i].prev} :: 0 < i < |s| ==> s[i].prev == s[i - 1])
  }

  class List {
    const head: Elem
    const tail: Elem
    ghost var elems: seq<Elem>

    ghost function Nodes(): seq<Elem>
      reads this
    {
      Framed(head, elems, tail)
    }

    ghost predicate Valid()
      reads this, Nodes()
    {
      Linked(Nodes())
    }

    constructor ()
      ensures Valid() && elems == []
      ensures fresh(head) && fresh(tail)
    {
      head := new Elem;
      tail := new Elem;
      elems := [];
      new;
      head.prev := null;
      head.next := tail;
      tail.prev := head;
      tail.next := null;
    }
  }

  /** `b` is a nonempty stretch of nodes whose inner links agree with the sequence. */
  ghost predicate Block(b: seq<Elem>)
    reads b
  {
    && b != []
    && Distinct(b)
    && (forall i {:trigger b[i].next} :: 0 <= i < |b| - 1 ==> b[i].next == b[i + 1])
    && (forall i {:trigger b[i].prev} :: 0 < i < |b| ==> b[i].prev == b[i - 1])
  }

  /** First half of list_splice, and all of list_remove: unlink first..last (inclusive). */
  method Detach(first: Elem, last: Elem, ghost s: seq<Elem>, ghost j: nat, ghost l: nat)
    requires Linked(s) && 1 <= j < l < |s| && s[j] == first && s[l - 1] == last
    modifies s[j - 1], s[l]
    ensures Linked(Cut(s, j, l))
    ensures Block(s[j..l])
  {
    hide Cut;
    DistinctCut(s, j, l);
    assert s[j - 1] != first && s[l] != last;
    first.prev.next := last.next;
    last.next.prev := first.prev;
    assert forall i :: j <= i < l ==> s[i] != s[j - 1] && s[i] != s[l];
  }

  /** Second half of list_splice, and all of list_insert: link first..last (inclusive) in front of
      `before`. */
  method Attach(before: Elem, first: Elem, last: Elem, ghost b: seq<Elem>, ghost s: seq<Elem>, ghost p: nat)
    requires Linked(s) && 1 <= p < |s| && s[p] == before
    requires Block(b) && Disjoint(b, s) && b[0] == first && b[|b| - 1] == last
    modifies b[0], b[|b| - 1], s[p - 1], s[p]
    ensures Linked(Paste(s, b, p))
  {
    hide Paste;
    DistinctPaste(s, b, p);
    first.prev := before.prev;
    last.next := before;
    before.prev.next := first;
    before.prev := last;
  }

  /** list_insert: `elem` goes just before `before`, which is not the head. */
  method Insert(before: Elem, elem: Elem, ghost s: seq<Elem>, ghost k: nat)
    requires Linked(s) && 1 <= k < |s| && s[k] == before && elem !in s
    modifies elem, s[k - 1], s[k]
    ensures Linked(Paste(s, [elem], k))
  {
    hide Paste;
    DistinctPaste(s, [elem], k);
    elem.prev := before.prev;
    elem.next := before;
    before.prev.next := elem;
    before.prev := elem;
  }

  /** list_remove: takes `elem` out, leaving its own links alone, and returns its successor. */
  method Remove(elem: Elem, ghost s: seq<Elem>, ghost k: nat) returns (next: Elem)
    requires Linked(s) && 1 <= k < |s| - 1 && s[k] == elem
    modifies s[k - 1], s[k + 1]
    ensures Linked(Cut(s, k, k + 1))
    ensures next == s[k + 1] && elem.prev == s[k - 1] && elem.next == s[k + 1]
  {
    Detach(elem, elem, s, k, k + 1);
    assert s[k].next == s[k + 1];
    next := elem.next;
  }

  /** list_splice on a nonempty range first..last (inclusive); `dst` is the receiving list as it
      stands once the range is out. */
  method Relink(before: Elem, first: Elem, last: Elem,
                ghost src: seq<Elem>, ghost j: nat, ghost l: nat, ghost dst: seq<Elem>, ghost p: nat)
    requires Linked(src) && 1 <= j < l < |src| && src[j] == first && src[l - 1] == last
    requires 1 <= p < |dst| && dst[p] == before
    requires dst == Cut(src, j, l) || (Linked(dst) && Disjoint(src, dst))
    modifies src[j], src[l - 1], src[j - 1], src[l], dst[p - 1], dst[p]
    ensures Linked(Paste(dst, src[j..l], p))
    ensures dst != Cut(src, j, l) ==> Linked(Cut(src, j, l))
  {
    hide Cut, Paste;
    DistinctCut(src, j, l);
    Detach(first, last, src, j, l);
    assert Disjoint(src[j..l], dst) by {
      if dst != Cut(src, j, l) {
        assert forall i, k :: 0 <= i < l - j && 0 <= k < |dst| ==> src[j..l][i] == src[i + j] != dst[k];
      }
    }
    Attach(before, first, last, src[j..l], dst, p);
  }

  /** list_splice: moves first..last (exclusive) in front of `before`, from another list or
      within one list, provided `before` is not inside the moved range. */
  method Splice(before: Elem, first: Elem, last: Elem,
                ghost src: seq<Elem>, ghost j: nat, ghost l: nat, ghost dst: seq<Elem>, ghost p: nat)
    requires Linked(src) && 1 <= j <= l < |src| && src[j] == first && src[l] == last
    requires Linked(dst) && 1 <= p < |dst| && dst[p] == before
    requires src == dst || Disjoint(src, dst)
    requires src == dst ==> p < j || l <= p
    modifies src[j - 1], src[j], src[l - 1], src[l], dst[p - 1], dst[p]
    ensures src != dst ==> Linked(Cut(src, j, l)) && Linked(Paste(dst, src[j..l], p))
    ensures src == dst ==> Linked(Move(src, j, l, if p < j then p else p - (l - j)))
  {
    hide Cut, Paste;
    if first == last {
      assert j == l;
      EmptyMove(src, [], j, if src == dst then p else 0);
      EmptyMove(dst, src[j..l], p, p);
      return;
    }
    ghost var target := if src == dst then Cut(src, j, l) else dst;
    ghost var p' := if src == dst && l <= p then p - (l - j) else p;
    assert src != dst ==> src[0] != dst[0] && Cut(src, j, l)[0] == src[0];
    Relink(before, first, last.prev, src, j, l, target, p');
  }

  /** find_end_of_run: the exclusive end of the maximal nondecreasing run that starts at `a` and
      does not go past `b`. */
  method FindEndOfRun(a: Elem, b: Elem, less: (Elem, Elem) -> bool, ghost s: seq<Elem>, ghost i: nat, ghost e: nat)
    returns (r: Elem, ghost k: nat)
    requires Linked(s) && i < e < |s| && s[i] == a && s[e] == b
    ensures i < k <= e && s[k] == r
    ensures Descents(less, s, i, k) == 0
    ensures k < e ==> less(s[k], s[k - 1])
  {
    assert s[i].next == s[i + 1];
    r, k := a.next, i + 1;
    while r != b && !less(r, r.prev)
      invariant i < k <= e && s[k] == r
      invariant Descents(less, s, i, k) == 0
      decreases e - k
    {
      assert r == s[k] && s[k].prev == s[k - 1] && s[k].next == s[k + 1];
      r, k := r.next, k + 1;
    }
    assert k < e ==> s[k].prev == s[k - 1];
  }

  /** list_splice as inplace_merge uses it: the front of the second run moves in front of `a0`. */
  method MoveFront(a0: Elem, node: Elem, after: Elem, less: (Elem, Elem) -> bool,
                   ghost rank: Elem -> int, ghost d: set<Elem>, ghost s0: seq<Elem>, ghost s: seq<Elem>,
                   ghost lo: nat, ghost p: nat, ghost q: nat, ghost r: nat)
    returns (ghost t: seq<Elem>)
    requires Linked(s) && Rearranged(less, rank, d, s0, s) && StrictWeakOrder(less, d)
    requires 1 <= lo <= p < q < r < |s| && s[p] == a0 && s[q] == node && s[q + 1] == after
    requires Merging(less, s, lo, p, q, r) && less(node, a0)
    modifies d, s[0], s[|s| - 1]
    ensures Linked(t) && Rearranged(less, rank, d, s0, t)
    ensures Merging(less, t, lo, p + 1, q + 1, r)
    ensures MovedBack(s, t, p, q)
  {
    Splice(a0, node, after, s, q, q + 1, s, p);
    MoveBackOne(s, p, q);
    t := Move(s, q, q + 1, p);
    TakeSecond(less, rank, d, s0, s, t, lo, p, q, r);
  }

  /** inplace_merge: the runs [lo, mid) and [mid, r) become one run, by moving single nodes. */
  method InplaceMerge(first: Elem, second: Elem, end: Elem, less: (Elem, Elem) -> bool,
                      ghost rank: Elem -> int, ghost d: set<Elem>,
                      ghost s0: seq<Elem>, ghost lo: nat, ghost mid: nat, ghost r: nat) returns (ghost s: seq<Elem>)
    requires Linked(s0) && Rearranged(less, rank, d, s0, s0) && StrictWeakOrder(less, d)
    requires 1 <= lo < mid < r < |s0| && s0[lo] == first && s0[mid] == second && s0[r] == end
    requires Sorted(less, s0, lo, mid) && Sorted(less, s0, mid, r)
    modifies d, s0[0], s0[|s0| - 1]
    ensures Linked(s) && Rearranged(less, rank, d, s0, s)
    ensures Sorted(less, s, lo, r)
    ensures forall i :: 0 <= i < lo || r <= i < |s| ==> s[i] == s0[i]
  {
    hide StrictWeakOrder, Stable;
    var a0, a1b0 := first, second;
    s := s0;
    ghost var p, q := lo, mid;
    while a0 != a1b0 && a1b0 != end
      invariant Linked(s) && Rearranged(less, rank, d, s0, s)
      invariant lo <= p <= q <= r && s[p] == a0 && s[q] == a1b0
      invariant Merging(less, s, lo, p, q, r)
      invariant forall i :: 0 <= i < lo || r <= i < |s| ==> s[i] == s0[i]
      decreases r - p + r - q
    {
      assert p < q < r;
      assert s[p].next == s[p + 1] && s[q].next == s[q + 1] && s[q + 1].prev == s[q];
      if !less(a1b0, a0) {
        MergeKeepFirst(less, d, s, lo, p, q, r);
        a0, p := a0.next, p + 1;
      } else {
        a1b0 := a1b0.next;
        s := MoveFront(a0, a1b0.prev, a1b0, less, rank, d, s0, s, lo, p, q, r);
        p, q := p + 1, q + 1;
      }
    }
    MergeDone(less, s, lo, p, q, r);
  }

  /** The body of list_sort's inner loop: find two adjacent runs and merge them, unless the run at
      `a0` is the last one. */
  method MergeNextRuns(a0: Elem, tail: Elem, less: (Elem, Elem) -> bool, ghost rank: Elem -> int, ghost d: set<Elem>,
                       ghost s0: seq<Elem>, ghost s: seq<Elem>, ghost p: nat, ghost cnt: nat)
    returns (paired: bool, b1: Elem, ghost t: seq<Elem>, ghost r: nat)
    requires Linked(s) && Rearranged(less, rank, d, s0, s) && StrictWeakOrder(less, d)
    requires PassUpTo(less, s0, s, p, cnt) && p < |s| - 1 && s[p] == a0 && s[|s| - 1] == tail
    modifies d, s[0], s[|s| - 1]
    ensures Linked(t) && Rearranged(less, rank, d, s0, t)
    ensures paired ==> PassUpTo(less, s0, t, r, cnt + 1) && p < r && t[r] == b1
    ensures !paired ==> Runs(less, t, 1, |s0| - 1) <= cnt + 1 && Runs(less, s0, 1, |s0| - 1) == 2 * cnt + 1
  {
    ghost var end := |s| - 1;
    t, r, b1 := s, p, tail;
    var a1b0, q := FindEndOfRun(a0, tail, less, s, p, end);
    paired := a1b0 != tail;
    if !paired {
      PassLast(less, s0, s, p, q, cnt);
      return;
    }
    b1, r := FindEndOfRun(a1b0, tail, less, s, q, end);
    NoDescentsSorted(less, d, s, p, q);
    NoDescentsSorted(less, d, s, q, r);
    t := InplaceMerge(a0, a1b0, b1, less, rank, d, s, p, q, r);
    PassStep(less, s0, s, t, p, q, r, cnt);
  }

  /** One pass of list_sort: adjacent pairs of runs are merged, so half as many remain. */
  method MergePass(head: Elem, tail: Elem, less: (Elem, Elem) -> bool,
                   ghost rank: Elem -> int, ghost d: set<Elem>, ghost s0: seq<Elem>)
    returns (outputRuns: nat, ghost s: seq<Elem>)
    requires Linked(s0) && s0[0] == head && s0[|s0| - 1] == tail
    requires Rearranged(less, rank, d, s0, s0) && StrictWeakOrder(less, d)
    modifies d, head, tail
    ensures Linked(s) && Rearranged(less, rank, d, s0, s)
    ensures outputRuns == (Runs(less, s0, 1, |s0| - 1) + 1) / 2
    ensures Runs(less, s, 1, |s0| - 1) <= outputRuns
  {
    s, outputRuns := s0, 0;
    ghost var p := 1;
    assert s[0].next == s[1];
    var a0 := head.next;
    while a0 != tail
      invariant Linked(s) && Rearranged(less, rank, d, s0, s)
      invariant 1 <= p < |s| && s[p] == a0
      invariant PassUpTo(less, s0, s, p, outputRuns)
      decreases |s0| - p
    {
      var paired;
      paired, a0, s, p := MergeNextRuns(a0, tail, less, rank, d, s0, s, p, outputRuns);
      outputRuns := outputRuns + 1;
      if !paired {
        return;
      }
    }
    assert p == |s0| - 1;
  }

  /** The loop of list_sort: passes until one run is left.  Every pass over two or more runs
      leaves fewer, so the loop ends. */
  method MergePasses(head: Elem, tail: Elem, less: (Elem, Elem) -> bool,
                     ghost rank: Elem -> int, ghost d: set<Elem>, ghost s0: seq<Elem>) returns (ghost s: seq<Elem>)
    requires Linked(s0) && s0[0] == head && s0[|s0| - 1] == tail
    requires Rearranged(less, rank, d, s0, s0) && StrictWeakOrder(less, d)
    modifies d, head, tail
    ensures Linked(s) && Rearranged(less, rank, d, s0, s)
    ensures Sorted(less, s, 1, |s| - 1)
  {
    s := s0;
    var runs := 2;
    while runs > 1
      invariant Linked(s) && Rearranged(less, rank, d, s0, s)
      invariant runs <= 1 ==> Runs(less, s, 1, |s0| - 1) <= 1
      decreases if runs > 1 then 1 else 0, Runs(less, s, 1, |s0| - 1)
    {
      runs, s := MergePass(head, tail, less, rank, d, s);
    }
    NoDescentsSorted(less, d, s, 1, |s0| - 1);
  }

  /** list_sort: the same nodes, still linked both ways between the same sentinels, in
      nondecreasing order, equivalent ones in their original order. */
  method Sort(list: List, less: (Elem, Elem) -> bool)
    requires list.Valid()
    requires StrictWeakOrder(less, Members(list.elems))
    modifies list, list.head, list.tail, Members(list.elems)
    ensures list.Valid()
    ensures multiset(list.elems) == multiset(old(list.elems))
    ensures Sorted(less, list.elems, 0, |list.elems|)
    ensures Stable(less, PositionIn(old(list.elems)), list.elems, 0, |list.elems|)
  {
    ghost var elems0, s0 := list.elems, list.Nodes();
    SortStart(less, Members(elems0), elems0, s0);
    ghost var s := MergePasses(list.head, list.tail, less, PositionIn(elems0), Members(elems0), s0);
    list.elems := s[1..|s| - 1];
    SortEnd(less, PositionIn(elems0), Members(elems0), elems0, s0, s, list.elems);
  }

  /** list_insert_ordered: after all elements not greater, before the first greater one; a sorted
      list stays sorted. */
  method InsertOrdered(list: List, elem: Elem, less: (Elem, Elem) -> bool, ghost d: set<Elem>) returns (ghost k: nat)
    requires list.Valid() && elem !in list.Nodes()
    modifies list, list.Nodes(), elem
    ensures list.Valid()
    ensures k <= |old(list.elems)| && list.elems == Paste(old(list.elems), [elem], k)
    ensures forall i :: 0 <= i < k ==> !less(elem, old(list.elems)[i])
    ensures k < |old(list.elems)| ==> less(elem, old(list.elems)[k])
    ensures StrictWeakOrder(less, d) && elem in d && Within(old(list.elems), d, 0, |old(list.elems)|)
            && Sorted(less, old(list.elems), 0, |old(list.elems)|)
        ==> Sorted(less, list.elems, 0, |list.elems|)
  {
    ghost var s, elems := list.Nodes(), list.elems;
    assert s[0].next == s[1];
    var e := list.head.next;
    k := 0;
    while e != list.tail && !less(elem, e)
      invariant k <= |elems| && s[k + 1] == e
      invariant forall i :: 0 <= i < k ==> !less(elem, elems[i])
      decreases |elems| - k
    {
      assert s[k + 1].next == s[k + 2];
      e, k := e.next, k + 1;
    }
    assert k < |elems| ==> s[k + 1] == elems[k];
    Insert(e, elem, s, k + 1);
    list.elems := Paste(elems, [elem], k);
    assert list.Nodes() == Paste(s, [elem], k + 1);
    if StrictWeakOrder(less, d) && elem in d && Within(elems, d, 0, |elems|) && Sorted(less, elems, 0, |elems|) {
      InsertKeepsSorted(less, d, elems, elem, k);
    }
  }

  /** The first k - 1 elements of the list have their links swapped, the rest does not. */
  ghost predicate SwappedUpTo(s: seq<Elem>, k: nat)
    reads s
  {
    && 1 <= k < |s| && Distinct(s)
    && s[0].prev == null && s[0].next == s[1] && s[|s| - 1].next == null && s[|s| - 1].prev == s[|s| - 2]
    && (forall i {:trigger s[i].next} :: 0 < i < k ==> s[i].next == s[i - 1])
    && (forall i {:trigger s[i].prev} :: 0 < i < k ==> s[i].prev == s[i + 1])
    && (forall i {:trigger s[i].next} :: k <= i < |s| - 1 ==> s[i].next == s[i + 1])
    && (forall i {:trigger s[i].prev} :: k <= i < |s| - 1 ==> s[i].prev == s[i - 1])
  }

  /** The loop of list_reverse: both links of every element are swapped. */
  method SwapLinks(head: Elem, tail: Elem, ghost s: seq<Elem>)
    requires Linked(s) && s[0] == head && s[|s| - 1] == tail
    modifies s
    ensures SwappedUpTo(s, |s| - 1)
  {
    var e := head.next;
    ghost var k := 1;
    while e != tail
      invariant SwappedUpTo(s, k) && s[k] == e
      decreases |s| - k
    {
      assert s[k].next == s[k + 1];
      e.prev, e.next := e.next, e.prev;
      e, k := e.prev, k + 1;
    }
  }

  /** The last two swaps of list_reverse: the sentinels' links and the ends' links to them. */
  method RepairEnds(head: Elem, tail: Elem, ghost s: seq<Elem>, ghost t: seq<Elem>)
    requires |s| >= 3 && SwappedUpTo(s, |s| - 1) && s[0] == head && s[|s| - 1] == tail
    requires |t| == |s| && t[0] == head && t[|s| - 1] == tail && Distinct(t)
    requires forall i {:trigger t[i]} :: 0 < i < |s| - 1 ==> t[i] == s[|s| - 1 - i]
    modifies s
    ensures Linked(t)
  {
    head.next, tail.prev := tail.prev, head.next;
    var first, last := head.next, tail.prev;
    assert first == s[|s| - 2] && last == s[1];
    first.prev, last.next := last.next, first.prev;
  }

  /** list_reverse: swap both links of every element, then repair the sentinels. */
  method Reverse(list: List)
    requires list.Valid()
    modifies list, list.Nodes()
    ensures list.Valid()
    ensures list.elems == Reversed(old(list.elems))
  {
    hide Reversed;
    ghost var s, elems := list.Nodes(), list.elems;
    ghost var t := Framed(list.head, Reversed(elems), list.tail);
    DistinctReversed(list.head, elems, list.tail);
    assert s[0].next == s[1];
    if list.head.next == list.tail {
      assert Reversed(elems) == elems;
    } else {
      SwapLinks(list.head, list.tail, s);
      RepairEnds(list.head, list.tail, s, t);
    }
    list.elems := Reversed(elems);
  }
}
