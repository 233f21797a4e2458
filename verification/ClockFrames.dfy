/** The frame list and its second-chance clock. The list is a sequence of distinct pages; the hand is
    null, on a page, or on the list's end. */
module ClockFrames {
  import opened Basics

  type Page = nat

  datatype Hand = Null | At(page: Page) | End

  ghost predicate HandOk(pages: seq<Page>, hand: Hand) {
    hand.At? ==> hand.page in pages
  }

  function Position(s: seq<Page>, p: Page): (i: nat)
    requires p in s
    ensures i < |s| && s[i] == p
  {
    if s[0] == p then 0 else 1 + Position(s[1..], p)
  }

  lemma {:induction false} PositionAt(a: seq<Page>, p: Page, b: seq<Page>)
    requires p !in a
    ensures Position(a + [p] + b, p) == |a|
  {
    if a != [] {
      PositionAt(a[1..], p, b);
      assert (a + [p] + b)[1..] == a[1..] + [p] + b;
    }
  }

  /** s, read around from position i. */
  ghost function Turned(s: seq<Page>, i: nat): seq<Page>
    requires i <= |s|
  {
    s[i..] + s[..i]
  }

  /** The pages in the order the clock will pass them: from just after the hand, around the list. */
  ghost function Ring(pages: seq<Page>, hand: Hand): seq<Page>
    requires HandOk(pages, hand)
  {
    if hand.At? then Turned(pages, Position(pages, hand.page) + 1) else pages
  }

  lemma RingMembers(pages: seq<Page>, hand: Hand)
    requires Distinct(pages) && HandOk(pages, hand)
    ensures Distinct(Ring(pages, hand)) && |Ring(pages, hand)| == |pages|
    ensures forall p :: p in Ring(pages, hand) <==> p in pages
  {
    if hand.At? {
      var i := Position(pages, hand.page) + 1;
      assert pages == pages[..i] + pages[i..];
    }
  }

  lemma TurnedTwice(s: seq<Page>, i: nat, k: nat)
    requires i <= |s| && k <= |s|
    ensures Turned(Turned(s, i), k) == Turned(s, if i + k <= |s| then i + k else i + k - |s|)
  {
    var n := |s|;
    if i + k <= n {
      assert s[i..] == s[i..i + k] + s[i + k..];
      assert Turned(s, i)[..k] == s[i..i + k] && Turned(s, i)[k..] == s[i + k..] + s[..i];
    } else {
      var m := i + k - n;
      assert s[..i] == s[..m] + s[m..i];
      assert Turned(s, i)[..k] == s[i..] + s[..m] && Turned(s, i)[k..] == s[m..i];
      assert s[m..i] + s[i..] == s[m..];
    }
  }

  lemma TurnedIndex(s: seq<Page>, i: nat, k: nat)
    requires i <= |s| && k < |s|
    ensures |Turned(s, i)| == |s|
    ensures Turned(s, i)[k] == s[if i + k < |s| then i + k else i + k - |s|]
  {
  }

  ghost function Start(pages: seq<Page>, hand: Hand): (i: nat)
    requires HandOk(pages, hand)
    ensures i <= |pages|
  {
    if hand.At? then Position(pages, hand.page) + 1 else 0
  }

  lemma RingTurned(pages: seq<Page>, hand: Hand)
    requires HandOk(pages, hand)
    ensures Ring(pages, hand) == Turned(pages, Start(pages, hand))
  {
  }

  lemma DistinctParts(a: seq<Page>, p: Page, b: seq<Page>)
    requires Distinct(a + [p] + b)
    ensures p !in a && p !in b
  {
    var s := a + [p] + b;
    assert s[|a|] == p;
    forall i | 0 <= i < |a|
      ensures a[i] != p
    {
      assert s[i] == a[i];
    }
    forall i | 0 <= i < |b|
      ensures b[i] != p
    {
      assert s[|a| + 1 + i] == b[i];
    }
  }

  lemma RingAt(pages: seq<Page>, j: nat)
    requires Distinct(pages) && j < |pages|
    ensures Ring(pages, At(pages[j])) == Turned(pages, j + 1)
  {
    var a, p, b := pages[..j], pages[j], pages[j + 1..];
    assert pages == a + [p] + b;
    DistinctParts(a, p, b);
    PositionAt(pages[..j], pages[j], pages[j + 1..]);
  }

  lemma RingSize(pages: seq<Page>, hand: Hand)
    requires HandOk(pages, hand)
    ensures |Ring(pages, hand)| == |pages|
  {
    RingTurned(pages, hand);
  }

  /** With the hand on the ring's page k, the ring starts after k. */
  lemma RingFrom(pages: seq<Page>, hand: Hand, k: nat)
    requires Distinct(pages) && HandOk(pages, hand) && k < |pages|
    ensures |Ring(pages, hand)| == |pages| && Ring(pages, hand)[k] in pages
    ensures Ring(pages, At(Ring(pages, hand)[k])) == Turned(Ring(pages, hand), k + 1)
  {
    hide Ring, Turned, Position, Distinct;
    var n, i := |pages|, Start(pages, hand);
    RingTurned(pages, hand);
    TurnedIndex(pages, i, k);
    TurnedTwice(pages, i, k + 1);
    RingAt(pages, if i + k < n then i + k else i + k - n);
  }

  /** Where the clock stops: the first unaccessed page of the ring, or its length. */
  ghost predicate IsFirstUnaccessed(r: seq<Page>, accessed: set<Page>, k: nat) {
    && k <= |r|
    && (forall j :: 0 <= j < k ==> r[j] in accessed)
    && (k < |r| ==> r[k] !in accessed)
  }

  ghost function Members(s: seq<Page>): set<Page> { set x | x in s }

  lemma MembersStep(r: seq<Page>, k: nat)
    requires Distinct(r) && k < |r|
    ensures Members(r[..k + 1]) == Members(r[..k]) + {r[k]} && r[k] !in Members(r[..k])
  {
    assert r[..k + 1] == r[..k] + [r[k]];
  }

  lemma MembersAll(r: seq<Page>)
    requires |r| > 0
    ensures r[0] in Members(r[..|r|]) && Members(r[..0]) == {}
  {
    assert r[..|r|] == r;
  }

  /** After k steps around ring r the clock is at p, having cleared the bits it passed. */
  ghost predicate Swept(r: seq<Page>, before: set<Page>, k: nat, p: Page, accessed: set<Page>) {
    && |r| > 0 && k <= |r| && p == (if k < |r| then r[k] else r[0])
    && (forall j :: 0 <= j < k ==> r[j] in before)
    && accessed == before - Members(r[..k])
  }

  /** The first unaccessed page of ring r, or its first page if all are accessed; exactly the bits of
      the pages before it are cleared. */
  ghost predicate IsVictim(r: seq<Page>, before: set<Page>, p: Page, accessed: set<Page>) {
    exists k: nat :: IsFirstUnaccessed(r, before, k) && Swept(r, before, k, p, accessed)
  }

  /** How many pages of ring r the clock passes before it meets an unaccessed one. */
  ghost function Passed(r: seq<Page>, accessed: set<Page>): (k: nat)
    ensures k <= |r|
  {
    if r == [] || r[0] !in accessed then 0 else 1 + Passed(r[1..], accessed)
  }

  ghost function Victim(r: seq<Page>, accessed: set<Page>): Page
    requires r != []
  {
    var k := Passed(r, accessed);
    r[if k < |r| then k else 0]
  }

  lemma {:induction false} PassedIs(r: seq<Page>, accessed: set<Page>, k: nat)
    requires IsFirstUnaccessed(r, accessed, k)
    ensures Passed(r, accessed) == k
  {
    if k > 0 {
      assert r[0] in accessed;
      PassedIs(r[1..], accessed, k - 1);
    }
  }

  /** The clock's choice is determined. */
  lemma VictimIs(r: seq<Page>, before: set<Page>, p: Page, accessed: set<Page>)
    requires IsVictim(r, before, p, accessed)
    ensures r != [] && p == Victim(r, before) && accessed == before - Members(r[..Passed(r, before)])
  {
    var k: nat :| IsFirstUnaccessed(r, before, k) && Swept(r, before, k, p, accessed);
    PassedIs(r, before, k);
  }

  /** There is one on every ring that is not empty. */
  lemma {:induction false} PassedFirst(r: seq<Page>, accessed: set<Page>)
    ensures IsFirstUnaccessed(r, accessed, Passed(r, accessed))
  {
    if r != [] && r[0] in accessed {
      PassedFirst(r[1..], accessed);
      var k := Passed(r[1..], accessed);
      assert forall j :: 0 < j < k + 1 ==> r[j] == r[1..][j - 1];
    }
  }

  lemma VictimExists(r: seq<Page>, before: set<Page>)
    requires r != []
    ensures IsVictim(r, before, Victim(r, before), before - Members(r[..Passed(r, before)]))
  {
    PassedFirst(r, before);
    var k := Passed(r, before);
    assert Swept(r, before, k, Victim(r, before), before - Members(r[..k]));
  }

  /** Where the hand is once page p is deleted. */
  ghost function HandAfter(pages: seq<Page>, hand: Hand, p: Page): Hand
    requires p in pages
  {
    var i := Position(pages, p);
    if hand != At(p) then hand else if i + 1 < |pages| then At(pages[i + 1]) else End
  }

  lemma SweepStart(r: seq<Page>, before: set<Page>)
    requires |r| > 0
    ensures Swept(r, before, 0, r[0], before)
  {
  }

  lemma SweepStep(r: seq<Page>, before: set<Page>, k: nat, p: Page, accessed: set<Page>)
    requires Distinct(r) && Swept(r, before, k, p, accessed) && p in accessed
    ensures k < |r| && p == r[k]
    ensures Swept(r, before, k + 1, if k + 1 < |r| then r[k + 1] else r[0], accessed - {p})
  {
    MembersAll(r);
    MembersStep(r, k);
  }

  lemma SweepEnd(r: seq<Page>, before: set<Page>, k: nat, p: Page, accessed: set<Page>)
    requires Distinct(r) && Swept(r, before, k, p, accessed) && p !in accessed
    ensures p in r && IsVictim(r, before, p, accessed)
  {
    if k < |r| {
      MembersStep(r, k);
    }
    assert IsFirstUnaccessed(r, before, k);
  }

  lemma Regroup(a: seq<Page>, b: seq<Page>, c: seq<Page>, d: seq<Page>)
    ensures a + (b + c + d) == a + b + c + d
    ensures a + (b + c) + d == a + b + c + d
  {
  }

  lemma Regroup2(a: seq<Page>, b: seq<Page>, c: seq<Page>, d: seq<Page>)
    ensures (a + b) + (c + d) == a + b + c + d
    ensures a + b + (c + d) == a + b + c + d
  {
  }

  lemma CutTwice(s: seq<Page>, i: nat, j: nat)
    requires i < j < |s|
    ensures s == s[..i] + [s[i]] + s[i + 1..j] + [s[j]] + s[j + 1..]
  {
  }

  lemma WithoutHead(x: Page, t: seq<Page>, p: Page)
    ensures Without([x] + t, p) == if x == p then t else [x] + Without(t, p)
  {
    assert ([x] + t)[1..] == t;
  }

  lemma {:induction false} WithoutAt(a: seq<Page>, p: Page, b: seq<Page>)
    requires p !in a
    ensures Without(a + [p] + b, p) == a + b
  {
    hide Without;
    if a == [] {
      assert a + [p] + b == [p] + b && a + b == b;
      WithoutHead(p, b, p);
    } else {
      var r := a[1..];
      WithoutAt(r, p, b);
      WithoutHead(a[0], r + [p] + b, p);
      assert a + [p] + b == [a[0]] + (r + [p] + b);
      assert a + b == [a[0]] + (r + b);
    }
  }

  lemma RingSplit(a: seq<Page>, p: Page, b: seq<Page>)
    requires p !in a
    ensures Ring(a + [p] + b, At(p)) == b + a + [p]
  {
    PositionAt(a, p, b);
  }

  /** Deleting a page off the hand only takes it out of the ring. */
  lemma DeleteOther(pages: seq<Page>, q: Page, p: Page)
    requires Distinct(pages) && p in pages && q in pages && p != q
    ensures p in Ring(pages, At(q)) && q in Without(pages, p)
    ensures Ring(Without(pages, p), At(q)) == Without(Ring(pages, At(q)), p)
  {
    var i, h := Position(pages, p), Position(pages, q);
    hide Distinct, Ring, Without;
    if i < h {
      CutTwice(pages, i, h);
      DeleteBefore(pages[..i], p, pages[i + 1..h], q, pages[h + 1..], pages);
    } else {
      CutTwice(pages, h, i);
      DeleteAfter(pages[..h], q, pages[h + 1..i], p, pages[i + 1..], pages);
    }
  }

  lemma DeleteBefore(a: seq<Page>, p: Page, b: seq<Page>, q: Page, c: seq<Page>, pages: seq<Page>)
    requires pages == a + [p] + b + [q] + c && Distinct(pages)
    ensures q in Without(pages, p) && p in Ring(pages, At(q))
    ensures Ring(Without(pages, p), At(q)) == Without(Ring(pages, At(q)), p)
  {
    hide Distinct, Ring, Without;
    Regroup(a + [p], b, [q], c);
    DistinctParts(a, p, b + [q] + c);
    DistinctParts(a + [p] + b, q, c);
    RingSplit(a + [p] + b, q, c);
    WithoutAt(a, p, b + [q] + c);
    Regroup(a, b, [q], c);
    RingSplit(a + b, q, c);
    Regroup(c, a, b, [q]);
    Regroup(c, a + [p], b, [q]);
    Regroup(c, a, [p], b + [q]);
    Regroup2(c, a + [p], b, [q]);
    WithoutAt(c + a, p, b + [q]);
    Regroup2(c, a, b, [q]);
  }

  lemma DeleteAfter(a: seq<Page>, q: Page, b: seq<Page>, p: Page, c: seq<Page>, pages: seq<Page>)
    requires pages == a + [q] + b + [p] + c && Distinct(pages)
    ensures q in Without(pages, p) && p in Ring(pages, At(q))
    ensures Ring(Without(pages, p), At(q)) == Without(Ring(pages, At(q)), p)
  {
    hide Distinct, Ring, Without;
    Regroup(a + [q], b, [p], c);
    DistinctParts(a, q, b + [p] + c);
    DistinctParts(a + [q] + b, p, c);
    RingSplit(a, q, b + [p] + c);
    WithoutAt(a + [q] + b, p, c);
    Regroup2(a, [q], b, c);
    RingSplit(a, q, b + c);
    Regroup(b + [p], c, a, [q]);
    WithoutAt(b, p, c + a + [q]);
    Regroup(b, c, a, [q]);
  }

  lemma RingEnd(a: seq<Page>)
    ensures Ring(a, End) == a
  {
  }

  /** Deleting the page under the hand: the page after it, where the hand moves, waits a full round. */
  lemma DeleteUnder(a: seq<Page>, p: Page, b: seq<Page>, pages: seq<Page>)
    requires pages == a + [p] + b && Distinct(pages)
    ensures Without(pages, p) == a + b
    ensures Ring(pages, At(p)) == b + a + [p]
    ensures b == [] ==> Ring(a + b, End) + [p] == Ring(pages, At(p))
    ensures b != [] ==> b[0] in a + b && [b[0]] + Ring(a + b, At(b[0])) == b + a + [b[0]]
  {
    hide Without, Ring;
    DistinctParts(a, p, b);
    RingSplit(a, p, b);
    WithoutAt(a, p, b);
    if b != [] {
      var q, c := b[0], b[1..];
      assert b == [q] + c;
      assert pages == (a + [p]) + [q] + c;
      DistinctParts(a + [p], q, c);
      hide Distinct;
      assert a + b == a + [q] + c;
      RingSplit(a, q, c);
      assert [q] + (c + a + [q]) == ([q] + c) + a + [q];
    } else {
      assert a + b == a && b + a + [p] == a + [p];
      RingEnd(a);
    }
  }

  class Clock {
    var pages: seq<Page>
    var hand: Hand
    var accessed: set<Page>

    ghost predicate Valid()
      reads this
    {
      Distinct(pages) && HandOk(pages, hand)
    }

    constructor ()
      ensures Valid() && pages == [] && accessed == {}
    {
      pages := [];
      hand := Null;
      accessed := {};
    }

    /** add_page_to_list_LRU: the pages already there keep their order; the clock meets the new page at the
        end of the list, which is last if the hand is off the list. */
    method Add(p: Page)
      requires Valid() && p !in pages
      modifies this`pages
      ensures Valid() && pages == old(pages) + [p]
      ensures !hand.At? ==> Ring(pages, hand) == Ring(old(pages), hand) + [p]
      ensures hand.At? ==> var i := Position(old(pages), hand.page) + 1;
        && Ring(old(pages), hand) == old(pages)[i..] + old(pages)[..i]
        && Ring(pages, hand) == old(pages)[i..] + [p] + old(pages)[..i]
    {
      if hand.At? {
        var i := Position(pages, hand.page);
        assert pages == pages[..i] + [hand.page] + pages[i + 1..];
        DistinctParts(pages[..i], hand.page, pages[i + 1..]);
        PositionAt(pages[..i], hand.page, pages[i + 1..] + [p]);
        assert pages + [p] == pages[..i] + [hand.page] + (pages[i + 1..] + [p]);
      }
      pages := pages + [p];
    }

    /** get_next_LRU_clock. */
    method Next() returns (r: Option<Page>)
      requires Valid()
      modifies this`hand
      ensures Valid()
      ensures r.None? <==> pages == []
      ensures pages == [] ==> !hand.At?
      ensures pages != [] ==> r == Some(Ring(pages, old(hand))[0]) && hand == At(r.value)
    {
      if !hand.At? {
        if pages == [] {
          return None;
        }
        hand := At(pages[0]);
        return Some(pages[0]);
      }
      var i := Position(pages, hand.page) + 1;
      if i == |pages| {
        hand := At(pages[0]);
        return Some(pages[0]);
      }
      hand := At(pages[i]);
      r := Some(pages[i]);
    }

    /** get_victim: the first unaccessed page around from the hand, or, all being accessed, the first
        page after the hand. It clears the accessed bits it passes and no others. */
    method GetVictim() returns (p: Page)
      requires Valid() && pages != []
      modifies this`hand, this`accessed
      ensures Valid() && hand == At(p) && p in pages && p !in accessed
      ensures IsVictim(Ring(pages, old(hand)), old(accessed), p, accessed)
    {
      ghost var r := Ring(pages, hand);
      RingMembers(pages, hand);
      MembersAll(r);
      hide Ring, Members, Position, Swept, IsVictim, Distinct;
      ghost var k: nat := 0;
      var e := Next();
      p := e.value;
      SweepStart(r, accessed);
      while p in accessed
        invariant HandOk(pages, hand) && hand == At(p) && Swept(r, old(accessed), k, p, accessed)
        decreases |accessed|
      {
        SweepStep(r, old(accessed), k, p, accessed);
        RingFrom(pages, old(hand), k);
        accessed := accessed - {p};
        e := Next();
        p := e.value;
        k := k + 1;
      }
      SweepEnd(r, old(accessed), k, p, accessed);
    }

    /** del_page_from_list_LRU: a hand on the page moves on, to the next page or the end. */
    method Delete(p: Page)
      requires Valid() && p in pages
      modifies this`pages, this`hand
      ensures Valid() && pages == Without(old(pages), p) && hand == HandAfter(old(pages), old(hand), p)
      ensures old(hand) != At(p) ==> hand == old(hand) && Ring(pages, hand) == Without(Ring(old(pages), old(hand)), p)
      ensures old(hand) == At(p) && p == old(pages)[|old(pages)| - 1] ==>
        Ring(pages, hand) + [p] == Ring(old(pages), old(hand))
      ensures old(hand) == At(p) && p != old(pages)[|old(pages)| - 1] ==>
        hand.At? && [hand.page] + Ring(pages, hand) == Ring(old(pages), old(hand))[..|old(pages)| - 1] + [hand.page]
    {
      WithoutFacts(pages, p);
      var i := Position(pages, p);
      assert pages == pages[..i] + [p] + pages[i + 1..];
      RingMembers(pages, hand);
      DeleteUnder(pages[..i], p, pages[i + 1..], pages);
      if hand.At? && hand.page != p {
        DeleteOther(pages, hand.page, p);
      }
      hide Ring, Without;
      if hand == At(p) {
        hand := if i + 1 < |pages| then At(pages[i + 1]) else End;
      }
      pages := Without(pages, p);
    }
  }
}
