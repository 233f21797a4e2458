/** qsort and bsearch of the C library: heap sort and binary search over an array of `cnt` elements
    of `size` bytes each.  `T` is the byte type; an element is the sequence of its bytes. */
module HeapSort {
  import opened Basics
  import Arithmetic64

  /** `compare` agrees with a total preorder along x, y, z. */
  ghost predicate Ordered<E>(compare: (E, E) -> int, x: E, y: E, z: E) {
    && (compare(x, y) > 0 <==> compare(y, x) < 0)
    && (compare(x, y) <= 0 && compare(y, z) <= 0 ==> compare(x, z) <= 0)
  }

  /** `compare` behaves like strcmp: a total preorder. */
  ghost predicate TotalPreorder<E(!new)>(compare: (E, E) -> int) {
    forall x, y, z :: Ordered(compare, x, y, z)
  }

  ghost predicate Sorted<E>(compare: (E, E) -> int, e: seq<E>, lo: nat, hi: nat)
    requires hi <= |e|
  {
    forall i, j :: lo <= i < j < hi ==> compare(e[i], e[j]) <= 0
  }

  // ----- Elements as slices of the byte array -----

  /** Byte offset of the k-th element, 0-based. */
  function Offset(size: nat, k: nat): nat { k * size }

  /** The k-th element of `s`; empty when `s` does not reach that far. */
  function Slice<T>(s: seq<T>, size: nat, k: nat): seq<T> {
    var a := Offset(size, k);
    if a + size <= |s| then s[a..a + size] else []
  }

  ghost function Elements<T>(s: seq<T>, size: nat, cnt: nat): (e: seq<seq<T>>)
    ensures |e| == cnt
    ensures forall k {:trigger e[k]} :: 0 <= k < cnt ==> e[k] == Slice(s, size, k)
  {
    seq(cnt, k requires 0 <= k => Slice(s, size, k))
  }

  /** Elements do not overlap. */
  lemma SlicesApart(size: nat, j: nat, k: nat)
    ensures j < k ==> Offset(size, j) + size <= Offset(size, k)
    ensures k < j ==> Offset(size, k) + size <= Offset(size, j)
  {
    if j < k {
      assert (j + 1) * size <= k * size;
    } else if k < j {
      assert (k + 1) * size <= j * size;
    }
  }

  function Swap<E>(e: seq<E>, p: nat, q: nat): (r: seq<E>)
    requires p < |e| && q < |e|
  {
    e[p := e[q]][q := e[p]]
  }

  lemma SwapPermutes<E>(e: seq<E>, p: nat, q: nat)
    requires p < |e| && q < |e|
    ensures multiset(Swap(e, p, q)) == multiset(e)
  {
  }

  /** What the byte loop of do_swap leaves behind. */
  ghost predicate BytesSwapped<T>(s: seq<T>, t: seq<T>, a: nat, b: nat, n: nat)
    requires a + n <= |s| && b + n <= |s|
  {
    && |t| == |s|
    && (forall i {:trigger t[i]} :: a <= i < a + n ==> t[i] == s[i - a + b])
    && (forall i {:trigger t[i]} :: b <= i < b + n ==> t[i] == s[i - b + a])
    && (forall i {:trigger t[i]} :: 0 <= i < |s| && !(a <= i < a + n) && !(b <= i < b + n) ==> t[i] == s[i])
  }

  /** The range [c, c+n) is one of the swapped ranges or clear of both. */
  lemma SwappedRange<T>(s: seq<T>, t: seq<T>, a: nat, b: nat, c: nat, n: nat)
    requires a + n <= |s| && b + n <= |s| && c + n <= |s| && BytesSwapped(s, t, a, b, n)
    requires c == a || c == b || ((c + n <= a || a + n <= c) && (c + n <= b || b + n <= c))
    ensures t[c..c + n] == var d := if c == a then b else if c == b then a else c; s[d..d + n]
  {
    var d := if c == a then b else if c == b then a else c;
    var x, y := t[c..c + n], s[d..d + n];
    forall i | 0 <= i < n
      ensures x[i] == y[i]
    {
      assert x[i] == t[c + i];
    }
  }

  lemma SwappedElements<T>(s: seq<T>, t: seq<T>, size: nat, cnt: nat, p: nat, q: nat)
    requires p < cnt && q < cnt && |s| == Offset(size, cnt)
    requires Offset(size, p) + size <= |s| && Offset(size, q) + size <= |s|
    requires BytesSwapped(s, t, Offset(size, p), Offset(size, q), size)
    ensures Elements(t, size, cnt) == Swap(Elements(s, size, cnt), p, q)
  {
    hide Offset;
    var f := Swap(Elements(s, size, cnt), p, q);
    forall k | 0 <= k < cnt
      ensures Slice(t, size, k) == f[k]
    {
      SlicesApart(size, k, cnt);
      SlicesApart(size, k, p);
      SlicesApart(size, k, q);
      SwappedRange(s, t, Offset(size, p), Offset(size, q), Offset(size, k), size);
    }
  }

  /** do_swap, with its 1-based indexes: byte by byte, the two elements change places. */
  method DoSwap<T>(array_: array<T>, aIdx: nat, bIdx: nat, size: nat, ghost cnt: nat)
    requires 1 <= aIdx <= cnt && 1 <= bIdx <= cnt && array_.Length == Offset(size, cnt)
    modifies array_
    ensures Elements(array_[..], size, cnt) == Swap(old(Elements(array_[..], size, cnt)), aIdx - 1, bIdx - 1)
  {
    hide Offset;
    var a, b := Offset(size, aIdx - 1), Offset(size, bIdx - 1);
    SlicesApart(size, aIdx - 1, cnt);
    SlicesApart(size, bIdx - 1, cnt);
    SlicesApart(size, bIdx - 1, aIdx - 1);
    ghost var s := array_[..];
    SwapBytes(array_, a, b, size);
    SwappedElements(s, array_[..], size, cnt, aIdx - 1, bIdx - 1);
  }

  /** The loop of do_swap on two ranges that coincide or do not meet. */
  method SwapBytes<T>(array_: array<T>, a: nat, b: nat, size: nat)
    requires a + size <= array_.Length && b + size <= array_.Length
    requires a == b || a + size <= b || b + size <= a
    modifies array_
    ensures BytesSwapped(old(array_[..]), array_[..], a, b, size)
  {
    ghost var s := array_[..];
    for i := 0 to size
      invariant BytesSwapped(s, array_[..], a, b, i)
    {
      var t := array_[a + i];
      array_[a + i] := array_[b + i];
      array_[b + i] := t;
    }
  }

  // ----- The heap, with the source's 1-based indexes -----

  /** Element k is not above its parent k / 2. */
  ghost predicate Under<E>(compare: (E, E) -> int, e: seq<E>, k: nat)
    requires 2 <= k <= |e|
  {
    compare(e[k - 1], e[k / 2 - 1]) <= 0
  }

  ghost predicate UnderGrandparent<E>(compare: (E, E) -> int, e: seq<E>, k: nat)
    requires 4 <= k <= |e|
  {
    compare(e[k - 1], e[k / 4 - 1]) <= 0
  }

  /** The subtrees rooted at lo and later are heaps. */
  ghost predicate Heap<E>(compare: (E, E) -> int, e: seq<E>, lo: nat, cnt: nat)
    requires cnt <= |e|
  {
    forall k :: 2 <= k <= cnt && lo <= k / 2 ==> Under(compare, e, k)
  }

  /** Heap below i except that j may be below its children, which are not above j's parent. */
  ghost predicate Sifting<E>(compare: (E, E) -> int, e: seq<E>, i: nat, j: nat, cnt: nat)
    requires cnt <= |e|
  {
    && 1 <= i <= j <= cnt
    && (i < j ==> i <= j / 2)
    && (forall k :: 2 <= k <= cnt && i <= k / 2 && k / 2 != j ==> Under(compare, e, k))
    && (forall c :: 4 <= c <= cnt && i <= c / 4 && c / 2 == j ==> UnderGrandparent(compare, e, c))
  }

  /** The index the loop of heapify calls max: the largest of j and its children. */
  ghost predicate IsLargest<E>(compare: (E, E) -> int, e: seq<E>, j: nat, max: nat, cnt: nat)
    requires cnt <= |e|
  {
    && 1 <= j <= cnt && 1 <= max <= cnt
    && (max == j || max / 2 == j)
    && compare(e[j - 1], e[max - 1]) <= 0
    && (2 * j <= cnt ==> compare(e[2 * j - 1], e[max - 1]) <= 0)
    && (2 * j + 1 <= cnt ==> compare(e[2 * j], e[max - 1]) <= 0)
  }

  lemma SiftStep<E>(compare: (E, E) -> int, e: seq<E>, i: nat, j: nat, max: nat, cnt: nat)
    requires cnt <= |e|
    requires Sifting(compare, e, i, j, cnt) && IsLargest(compare, e, j, max, cnt) && max != j
    ensures Sifting(compare, Swap(e, j - 1, max - 1), i, max, cnt)
  {
    var f := Swap(e, j - 1, max - 1);
    forall k | 2 <= k <= cnt && i <= k / 2 && k / 2 != max
      ensures Under(compare, f, k)
    {
      if k / 2 == j {
        assert k == 2 * j || k == 2 * j + 1;
      } else if k == j {
        assert UnderGrandparent(compare, e, max);
      } else {
        assert Under(compare, e, k);
      }
    }
    forall c | 4 <= c <= cnt && c / 2 == max
      ensures UnderGrandparent(compare, f, c)
    {
      assert Under(compare, e, c);
    }
  }

  lemma SiftStart<E>(compare: (E, E) -> int, e: seq<E>, i: nat, cnt: nat)
    requires 1 <= i <= cnt <= |e| && Heap(compare, e, i + 1, cnt)
    ensures Sifting(compare, e, i, i, cnt)
  {
  }

  lemma SiftDone<E>(compare: (E, E) -> int, e: seq<E>, i: nat, j: nat, cnt: nat)
    requires cnt <= |e|
    requires Sifting(compare, e, i, j, cnt) && IsLargest(compare, e, j, j, cnt)
    ensures Heap(compare, e, i, cnt)
  {
    forall k | 2 <= k <= cnt && k / 2 == j
      ensures Under(compare, e, k)
    {
      assert k == 2 * j || k == 2 * j + 1;
    }
  }

  lemma {:induction false} RootIsLargest<E(!new)>(compare: (E, E) -> int, e: seq<E>, k: nat, cnt: nat)
    requires TotalPreorder(compare) && 1 <= k <= cnt <= |e| && Heap(compare, e, 1, cnt)
    ensures compare(e[k - 1], e[0]) <= 0
    decreases k
  {
    if k == 1 {
      assert Ordered(compare, e[0], e[0], e[0]);
    } else {
      assert Under(compare, e, k);
      RootIsLargest(compare, e, k / 2, cnt);
      assert Ordered(compare, e[k - 1], e[k / 2 - 1], e[0]);
    }
  }

  /** f is e with its first cnt elements rearranged. */
  ghost predicate Rearranged<E>(e: seq<E>, f: seq<E>, cnt: nat) {
    cnt <= |e| == |f| && multiset(f[..cnt]) == multiset(e[..cnt]) && f[cnt..] == e[cnt..]
  }

  lemma RearrangedRefl<E>(e: seq<E>, cnt: nat)
    requires cnt <= |e|
    ensures Rearranged(e, e, cnt)
  {
  }

  lemma SwapRearranges<E>(e: seq<E>, f: seq<E>, p: nat, q: nat, cnt: nat)
    requires Rearranged(e, f, cnt) && p < cnt && q < cnt
    ensures Rearranged(e, Swap(f, p, q), cnt)
  {
    var g := Swap(f, p, q);
    SwapPermutes(f[..cnt], p, q);
    assert g[..cnt] == Swap(f[..cnt], p, q);
    assert g[cnt..] == f[cnt..];
  }

  /** heapify: floats element i down, making the subtree rooted there a heap. */
  method Heapify<T(!new)>(array_: array<T>, start: nat, cnt: nat, size: nat, compare: (seq<T>, seq<T>) -> int,
                          ghost total: nat)
    requires TotalPreorder(compare) && 1 <= start <= cnt <= total && array_.Length == Offset(size, total)
    requires Heap(compare, Elements(array_[..], size, total), start + 1, cnt)
    modifies array_
    ensures Heap(compare, Elements(array_[..], size, total), start, cnt)
    ensures Rearranged(old(Elements(array_[..], size, total)), Elements(array_[..], size, total), cnt)
  {
    hide *;
    ghost var e0 := Elements(array_[..], size, total);
    SiftStart(compare, e0, start, cnt);
    RearrangedRefl(e0, cnt);
    var i := start;
    while true
      invariant start <= i <= cnt
      invariant Sifting(compare, Elements(array_[..], size, total), start, i, cnt)
      invariant Rearranged(e0, Elements(array_[..], size, total), cnt)
      decreases cnt - i
    {
      ghost var e := Elements(array_[..], size, total);
      var max := LargestOfThree(array_, i, cnt, size, compare, total);
      if max == i {
        SiftDone(compare, e, start, i, cnt);
        break;
      }
      SiftStep(compare, e, start, i, max, cnt);
      SwapRearranges(e0, e, i - 1, max - 1, cnt);
      DoSwap(array_, i, max, size, total);
      i := max;
    }
  }

  method LargestOfThree<T(!new)>(array_: array<T>, i: nat, cnt: nat, size: nat, compare: (seq<T>, seq<T>) -> int,
                                 ghost total: nat)
    returns (max: nat)
    requires TotalPreorder(compare) && 1 <= i <= cnt <= total
    ensures i <= max <= cnt
    ensures IsLargest(compare, Elements(array_[..], size, total), i, max, cnt)
  {
    hide Slice;
    ghost var e := Elements(array_[..], size, total);
    var left, right := 2 * i, 2 * i + 1;
    max := i;
    assert Ordered(compare, e[i - 1], e[i - 1], e[i - 1]);
    if left <= cnt && compare(Slice(array_[..], size, left - 1), Slice(array_[..], size, max - 1)) > 0 {
      max := left;
      assert Ordered(compare, e[left - 1], e[i - 1], e[left - 1]);
      assert Ordered(compare, e[left - 1], e[left - 1], e[left - 1]);
    }
    ghost var m := max;
    if right <= cnt && compare(Slice(array_[..], size, right - 1), Slice(array_[..], size, max - 1)) > 0 {
      max := right;
      assert Ordered(compare, e[right - 1], e[m - 1], e[right - 1]);
      assert Ordered(compare, e[i - 1], e[m - 1], e[right - 1]);
      assert left <= cnt ==> Ordered(compare, e[left - 1], e[m - 1], e[right - 1]);
      assert Ordered(compare, e[right - 1], e[right - 1], e[right - 1]);
    }
  }

  /** Extraction so far: the first i elements are a heap, the rest is sorted and not below them. */
  ghost predicate Extracting<E>(compare: (E, E) -> int, e: seq<E>, i: nat) {
    && i <= |e|
    && Heap(compare, e, 1, i)
    && Sorted(compare, e, i, |e|)
    && (forall p, q :: 0 <= p < i <= q < |e| ==> compare(e[p], e[q]) <= 0)
  }

  lemma SwapKeepsSubheaps<E>(compare: (E, E) -> int, e: seq<E>, i: nat)
    requires 2 <= i <= |e| && Heap(compare, e, 1, i)
    ensures Heap(compare, Swap(e, 0, i - 1), 2, i - 1)
  {
    var f := Swap(e, 0, i - 1);
    forall k | 2 <= k <= i - 1 && 2 <= k / 2
      ensures Under(compare, f, k)
    {
      assert Under(compare, e, k);
    }
  }

  /** Moving the root to position i and rebuilding the heap on the first i - 1 elements. */
  lemma ExtractRoot<E(!new)>(compare: (E, E) -> int, e: seq<E>, i: nat, g: seq<E>)
    requires TotalPreorder(compare) && Extracting(compare, e, i) && 2 <= i
    requires Rearranged(Swap(e, 0, i - 1), g, i - 1) && Heap(compare, g, 1, i - 1)
    ensures Extracting(compare, g, i - 1)
  {
    var f := Swap(e, 0, i - 1);
    assert forall q :: i - 1 <= q < |g| ==> g[q] == f[i - 1..][q - (i - 1)];
    forall p | 0 <= p < i - 1
      ensures exists k :: 0 <= k < i && g[p] == e[k]
    {
      assert g[p] == g[..i - 1][p];
      assert g[..i - 1][p] in multiset(g[..i - 1]);
      assert g[p] in f[..i - 1];
      var k :| 0 <= k < i - 1 && f[..i - 1][k] == g[p];
      assert g[p] == e[if k == 0 then i - 1 else k];
    }
    forall p, q | 0 <= p < i - 1 <= q < |g|
      ensures compare(g[p], g[q]) <= 0
    {
      var k :| 0 <= k < i && g[p] == e[k];
      if q == i - 1 {
        RootIsLargest(compare, e, k + 1, i);
      }
    }
  }

  lemma RearrangedPermutes<E>(e: seq<E>, f: seq<E>, cnt: nat)
    requires Rearranged(e, f, cnt)
    ensures multiset(f) == multiset(e)
  {
    assert f == f[..cnt] + f[cnt..] && e == e[..cnt] + e[cnt..];
  }

  /** sort: a sorted permutation of the elements, by heap construction and extraction. */
  method Sort<T(!new)>(array_: array<T>, cnt: nat, size: nat, compare: (seq<T>, seq<T>) -> int)
    requires TotalPreorder(compare) && size > 0 && array_.Length == Offset(size, cnt)
    modifies array_
    ensures Sorted(compare, Elements(array_[..], size, cnt), 0, cnt)
    ensures multiset(Elements(array_[..], size, cnt)) == multiset(old(Elements(array_[..], size, cnt)))
  {
    hide *;
    ghost var e0 := Elements(array_[..], size, cnt);
    var i := cnt / 2;
    NoParents(compare, e0, i, cnt);
    while i > 0
      invariant 0 <= i <= cnt / 2
      invariant Heap(compare, Elements(array_[..], size, cnt), i + 1, cnt)
      invariant multiset(Elements(array_[..], size, cnt)) == multiset(e0)
    {
      ghost var e := Elements(array_[..], size, cnt);
      Heapify(array_, i, cnt, size, compare, cnt);
      RearrangedPermutes(e, Elements(array_[..], size, cnt), cnt);
      i := i - 1;
    }
    i := cnt;
    ExtractionStart(compare, Elements(array_[..], size, cnt));
    while i > 1
      invariant 0 <= i <= cnt && (i == 0 ==> cnt == 0)
      invariant Extracting(compare, Elements(array_[..], size, cnt), i)
      invariant multiset(Elements(array_[..], size, cnt)) == multiset(e0)
    {
      ghost var e := Elements(array_[..], size, cnt);
      ExtractingHeap(compare, e, i);
      SwapKeepsSubheaps(compare, e, i);
      SwapPermutes(e, 0, i - 1);
      DoSwap(array_, 1, i, size, cnt);
      ghost var f := Elements(array_[..], size, cnt);
      Heapify(array_, 1, i - 1, size, compare, cnt);
      ghost var g := Elements(array_[..], size, cnt);
      RearrangedPermutes(f, g, i - 1);
      ExtractRoot(compare, e, i, g);
      i := i - 1;
    }
    ExtractionDone(compare, Elements(array_[..], size, cnt), i);
  }

  /** Elements past cnt / 2 have no children. */
  lemma NoParents<E>(compare: (E, E) -> int, e: seq<E>, i: nat, cnt: nat)
    requires cnt <= |e| && i == cnt / 2
    ensures Heap(compare, e, i + 1, cnt)
  {
  }

  lemma ExtractionStart<E>(compare: (E, E) -> int, e: seq<E>)
    requires Heap(compare, e, 1, |e|)
    ensures Extracting(compare, e, |e|)
  {
  }

  lemma ExtractingHeap<E>(compare: (E, E) -> int, e: seq<E>, i: nat)
    requires Extracting(compare, e, i)
    ensures i <= |e| && Heap(compare, e, 1, i)
  {
  }

  lemma ExtractionDone<E>(compare: (E, E) -> int, e: seq<E>, i: nat)
    requires Extracting(compare, e, i) && i <= 1
    ensures Sorted(compare, e, 0, |e|)
  {
  }

  /** binary_search on a sorted array: finds a match if and only if there is one. */
  method BinarySearch<T(!new)>(key: seq<T>, array_: array<T>, cnt: nat, size: nat, compare: (seq<T>, seq<T>) -> int)
    returns (r: Option<nat>)
    requires TotalPreorder(compare) && size > 0 && array_.Length == Offset(size, cnt)
    requires Sorted(compare, Elements(array_[..], size, cnt), 0, cnt)
    ensures r.Some? ==>
      exists k :: 0 <= k < cnt && r.value == Offset(size, k) && compare(key, Slice(array_[..], size, k)) == 0
    ensures r.None? ==> forall k :: 0 <= k < cnt ==> compare(key, Slice(array_[..], size, k)) != 0
  {
    hide Offset, TotalPreorder;
    ghost var e := Elements(array_[..], size, cnt);
    ghost var lo, hi := 0, cnt;
    OffsetAdd(size, 0, 0);
    var first, last := 0, Offset(size, cnt);
    while first < last
      invariant 0 <= lo <= hi <= cnt && first == Offset(size, lo) && last == Offset(size, hi)
      invariant forall k :: 0 <= k < lo ==> compare(key, e[k]) > 0
      invariant forall k :: hi <= k < cnt ==> compare(key, e[k]) < 0
      decreases hi - lo
    {
      var range := (last - first) / size;
      var middle := first + Offset(size, range / 2);
      ghost var mid := lo + range / 2;
      MiddleElement(size, lo, hi, cnt, range);
      var cmp := compare(key, array_[middle..middle + size]);
      assert array_[middle..middle + size] == Slice(array_[..], size, mid) == e[mid];
      Halves(compare, key, e, mid);
      if cmp < 0 {
        last, hi := middle, mid;
      } else if cmp > 0 {
        first, lo := middle + size, mid + 1;
      } else {
        return Some(middle);
      }
    }
    SlicesApart(size, lo, hi);
    forall k | 0 <= k < cnt
      ensures compare(key, Slice(array_[..], size, k)) != 0
    {
      assert e[k] == Slice(array_[..], size, k);
    }
    return None;
  }

  /** One comparison rules out half of a sorted array. */
  lemma Halves<E(!new)>(compare: (E, E) -> int, key: E, e: seq<E>, mid: nat)
    requires TotalPreorder(compare) && Sorted(compare, e, 0, |e|) && mid < |e|
    ensures compare(key, e[mid]) < 0 ==> forall k :: mid <= k < |e| ==> compare(key, e[k]) < 0
    ensures compare(key, e[mid]) > 0 ==> forall k :: 0 <= k <= mid ==> compare(key, e[k]) > 0
  {
    forall k | mid < k < |e| && compare(key, e[mid]) < 0
      ensures compare(key, e[k]) < 0
    {
      assert Ordered(compare, e[mid], e[k], key) && Ordered(compare, e[mid], key, key);
      assert Ordered(compare, e[k], key, key);
    }
    forall k | 0 <= k < mid && compare(key, e[mid]) > 0
      ensures compare(key, e[k]) > 0
    {
      assert Ordered(compare, key, e[k], e[mid]);
    }
  }

  lemma MiddleElement(size: nat, lo: nat, hi: nat, cnt: nat, range: nat)
    requires size > 0 && lo <= hi <= cnt && Offset(size, lo) < Offset(size, hi)
    requires range == (Offset(size, hi) - Offset(size, lo)) / size
    ensures range == hi - lo > 0
    ensures Offset(size, lo) + Offset(size, range / 2) == Offset(size, lo + range / 2)
    ensures Offset(size, lo + range / 2) + size == Offset(size, lo + range / 2 + 1) <= Offset(size, cnt)
  {
    OffsetAdd(size, lo, hi - lo);
    Arithmetic64.QuotUnique(Offset(size, hi - lo), size, hi - lo);
    OffsetAdd(size, lo, range / 2);
    OffsetAdd(size, lo + range / 2, 1);
    hide Offset;
    SlicesApart(size, lo, hi);
    SlicesApart(size, lo + range / 2, cnt);
  }

  lemma OffsetAdd(size: nat, j: nat, k: nat)
    ensures Offset(size, j + k) == Offset(size, j) + Offset(size, k)
    ensures Offset(size, 1) == size && Offset(size, 0) == 0
  {
  }
}
