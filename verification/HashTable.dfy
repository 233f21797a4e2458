/** The chained hash table: buckets of elements, a power of two of them, resized as it fills. */
module HashOrder {
  import opened Basics
  import opened BitOps
  import opened Arithmetic64

  // ----- Powers of two, as the code computes them -----

  ghost predicate IsPowerOf2(x: nat) {
    exists n :: x == Shl(1, n)
  }

  /** turn_off_least_1bit. */
  function TurnOffLeast1Bit(x: nat): nat
    requires x > 0
  {
    And(x, x - 1)
  }

  lemma {:induction false} AndSelf(x: nat)
    ensures And(x, x) == x
  {
    if x > 0 {
      AndSelf(x / 2);
    }
  }

  lemma LowBitCases(x: nat)
    requires x > 0
    ensures x % 2 == 1 ==> TurnOffLeast1Bit(x) == x - 1
    ensures x % 2 == 0 ==> TurnOffLeast1Bit(x) == 2 * TurnOffLeast1Bit(x / 2)
  {
    if x % 2 == 1 {
      assert (x - 1) / 2 == x / 2;
      AndSelf(x / 2);
    } else {
      assert (x - 1) / 2 == x / 2 - 1 && (x - 1) % 2 == 1;
    }
  }

  /** Turning off the lowest 1 bit decreases x, and leaves 0 exactly for a power of two; otherwise
      the highest bit, 2^n, stays. */
  lemma {:induction false} LowBitOff(x: nat, n: nat)
    requires Shl(1, n) <= x < Shl(1, n + 1)
    ensures TurnOffLeast1Bit(x) < x
    ensures TurnOffLeast1Bit(x) == 0 <==> x == Shl(1, n)
    ensures x != Shl(1, n) ==> Shl(1, n) <= TurnOffLeast1Bit(x)
    decreases n
  {
    LowBitCases(x);
    assert Shl(1, n + 1) == 2 * Shl(1, n);
    assert n > 0 ==> Shl(1, n) == 2 * Shl(1, n - 1);
    assert n == 0 ==> Shl(1, n) == 1;
    hide TurnOffLeast1Bit, Shl;
    if n > 0 {
      if x % 2 == 0 {
        LowBitOff(x / 2, n - 1);
      }
    }
  }

  /** Every positive x has a highest bit. */
  lemma {:induction false} HighBit(x: nat) returns (n: nat)
    requires x > 0
    ensures Shl(1, n) <= x < Shl(1, n + 1)
  {
    if x == 1 {
      n := 0;
    } else {
      n := HighBit(x / 2);
      n := n + 1;
    }
  }

  /** The loop of rehash: the largest power of two not above x. */
  method RoundDownToPowerOf2(x: nat) returns (p: nat)
    requires x > 0
    ensures IsPowerOf2(p) && p <= x < 2 * p
  {
    ghost var n := HighBit(x);
    p := x;
    while !(p != 0 && TurnOffLeast1Bit(p) == 0)
      invariant Shl(1, n) <= p <= x < Shl(1, n + 1)
      decreases p
    {
      LowBitOff(p, n);
      p := TurnOffLeast1Bit(p);
    }
    LowBitOff(p, n);
  }

  // ----- Elements up to equivalence -----

  ghost predicate Equiv<E>(less: (E, E) -> bool, x: E, y: E) {
    !less(x, y) && !less(y, x)
  }

  /** What the table is entitled to: equivalence is an equivalence, and the hash respects it. */
  ghost predicate Lawful<E(!new)>(less: (E, E) -> bool, hash: E -> nat) {
    && (forall x :: Equiv(less, x, x))
    && (forall x, y, z :: Equiv(less, x, y) && Equiv(less, y, z) ==> Equiv(less, x, z))
    && (forall x, y :: Equiv(less, x, y) ==> hash(x) == hash(y))
  }

  /** A set of elements, no two of them equivalent. */
  ghost predicate Unique<E>(less: (E, E) -> bool, m: multiset<E>) {
    && (forall x | x in m :: m[x] == 1)
    && (forall x, y | x in m && y in m :: Equiv(less, x, y) ==> x == y)
  }

  ghost predicate IsLookup<E>(less: (E, E) -> bool, m: multiset<E>, e: E, r: Option<E>) {
    match r
    case Some(x) => x in m && Equiv(less, x, e)
    case None => forall x | x in m :: !Equiv(less, x, e)
  }

  /** What the four operations do to a set m of elements, and return. */
  datatype Op<E> = InsertOp(e: E) | ReplaceOp(e: E) | DeleteOp(e: E) | FindOp(e: E)

  ghost predicate Does<E>(less: (E, E) -> bool, op: Op<E>, m: multiset<E>, r: Option<E>, n: multiset<E>) {
    && IsLookup(less, m, op.e, r)
    && match op
       case InsertOp(e) => n == if r.Some? then m else m + multiset{e}
       case ReplaceOp(e) => n == (if r.Some? then m - multiset{r.value} else m) + multiset{e}
       case DeleteOp(_) => n == if r.Some? then m - multiset{r.value} else m
       case FindOp(_) => n == m
  }

  /** What the table holds for the operation's own key afterwards. */
  ghost function Held<E>(op: Op<E>, r: Option<E>): Option<E> {
    match op
    case InsertOp(e) => if r.Some? then r else Some(e)
    case ReplaceOp(e) => Some(e)
    case DeleteOp(_) => None
    case FindOp(_) => r
  }

  /** What a lookup under key k finds after the operation: the laws of a finite map whose keys are
      elements up to equivalence. */
  ghost predicate MapLaw<E>(less: (E, E) -> bool, op: Op<E>, m: multiset<E>, r: Option<E>, n: multiset<E>, k: E,
                            v: Option<E>)
  {
    IsLookup(less, n, k, v) <==>
      if Equiv(less, k, op.e) then v == Held(op, r) else IsLookup(less, m, k, v)
  }

  lemma EquivFacts<E(!new)>(less: (E, E) -> bool, hash: E -> nat, x: E, y: E, z: E)
    requires Lawful(less, hash)
    ensures Equiv(less, x, x)
    ensures Equiv(less, x, y) == Equiv(less, y, x)
    ensures Equiv(less, x, y) && Equiv(less, z, y) ==> Equiv(less, x, z)
  {
    assert Equiv(less, z, y) == Equiv(less, y, z);
  }

  /** Only elements equivalent to op's element come or go. */
  lemma OthersStay<E(!new)>(less: (E, E) -> bool, hash: E -> nat, op: Op<E>, m: multiset<E>, r: Option<E>,
                            n: multiset<E>, x: E)
    requires Lawful(less, hash) && Unique(less, m) && Does(less, op, m, r, n)
    ensures !Equiv(less, x, op.e) ==> n[x] == m[x]
    ensures Equiv(less, x, op.e) ==> n[x] == if Held(op, r) == Some(x) then 1 else 0
  {
    EquivFacts(less, hash, op.e, x, x);
    if r.Some? {
      EquivFacts(less, hash, x, op.e, r.value);
    }
  }

  lemma DoesKeepsUnique<E(!new)>(less: (E, E) -> bool, hash: E -> nat, op: Op<E>, m: multiset<E>, r: Option<E>,
                                 n: multiset<E>)
    requires Lawful(less, hash) && Unique(less, m) && Does(less, op, m, r, n)
    ensures Unique(less, n)
  {
    forall x | x in n
      ensures n[x] == 1
    {
      OthersStay(less, hash, op, m, r, n, x);
    }
    forall x, y | x in n && y in n && Equiv(less, x, y)
      ensures x == y
    {
      OthersStay(less, hash, op, m, r, n, x);
      OthersStay(less, hash, op, m, r, n, y);
      EquivFacts(less, hash, x, y, op.e);
      EquivFacts(less, hash, y, x, op.e);
      EquivFacts(less, hash, op.e, x, y);
      EquivFacts(less, hash, op.e, y, x);
    }
  }

  lemma LookupsAgree<E(!new)>(less: (E, E) -> bool, hash: E -> nat, m: multiset<E>, k: E, v: Option<E>, w: Option<E>)
    requires Lawful(less, hash) && Unique(less, m) && IsLookup(less, m, k, v) && IsLookup(less, m, k, w)
    ensures v == w
  {
    if v.Some? && w.Some? {
      EquivFacts(less, hash, v.value, k, w.value);
    }
  }

  /** The table is a finite map: a lookup after an operation finds what a map would hold. */
  lemma OperationsAreMapOperations<E(!new)>(less: (E, E) -> bool, hash: E -> nat, op: Op<E>, m: multiset<E>,
                                            r: Option<E>, n: multiset<E>, k: E, v: Option<E>)
    requires Lawful(less, hash) && Unique(less, m) && Does(less, op, m, r, n)
    ensures MapLaw(less, op, m, r, n, k, v)
  {
    DoesKeepsUnique(less, hash, op, m, r, n);
    if Equiv(less, k, op.e) {
      var w := Held(op, r);
      assert IsLookup(less, n, k, w) by {
        forall x | x in n && Equiv(less, x, k)
          ensures w == Some(x)
        {
          OthersStay(less, hash, op, m, r, n, x);
          EquivFacts(less, hash, k, op.e, x);
          EquivFacts(less, hash, x, k, op.e);
          EquivFacts(less, hash, op.e, k, x);
        }
        if w.Some? {
          OthersStay(less, hash, op, m, r, n, w.value);
          EquivFacts(less, hash, op.e, op.e, op.e);
          EquivFacts(less, hash, w.value, op.e, k);
        }
      }
      if IsLookup(less, n, k, v) {
        LookupsAgree(less, hash, n, k, v, w);
      }
    } else {
      forall x | Equiv(less, x, k)
        ensures n[x] == m[x]
      {
        OthersStay(less, hash, op, m, r, n, x);
        EquivFacts(less, hash, k, x, op.e);
        EquivFacts(less, hash, op.e, x, k);
      }
    }
  }

  // ----- All elements of a sequence of buckets -----

  ghost function Bag<E>(bs: seq<seq<E>>): multiset<E> {
    if bs == [] then multiset{} else Bag(bs[..|bs| - 1]) + multiset(bs[|bs| - 1])
  }

  lemma BagStep<E>(bs: seq<seq<E>>, b: nat)
    requires b < |bs|
    ensures Bag(bs[..b + 1]) == Bag(bs[..b]) + multiset(bs[b])
  {
    assert bs[..b + 1][..b] == bs[..b];
  }

  lemma AddBoth<E>(a: multiset<E>, b: multiset<E>, c: multiset<E>, d: multiset<E>, x: multiset<E>)
    requires a + b == c + d
    ensures (a + x) + b == (c + x) + d
  {
    assert (a + x) + b == (a + b) + x;
    assert (c + x) + d == (c + d) + x;
  }

  lemma {:induction false} BagUpdate<E>(bs: seq<seq<E>>, k: nat, b: seq<E>)
    requires k < |bs|
    ensures Bag(bs[k := b]) + multiset(bs[k]) == Bag(bs) + multiset(b)
  {
    var n := |bs| - 1;
    var cs := bs[k := b];
    if k < n {
      BagUpdate(bs[..n], k, b);
      assert cs[..n] == bs[..n][k := b] && bs[..n][k] == bs[k] && cs[n] == bs[n];
      AddBoth(Bag(cs[..n]), multiset(bs[k]), Bag(bs[..n]), multiset(b), multiset(bs[n]));
    } else {
      assert cs[..n] == bs[..n];
    }
  }

  lemma PushFront<E>(bs: seq<seq<E>>, k: nat, e: E)
    requires k < |bs|
    ensures Bag(bs[k := [e] + bs[k]]) == Bag(bs) + multiset{e}
  {
    var a, x := Bag(bs[k := [e] + bs[k]]), multiset(bs[k]);
    BagUpdate(bs, k, [e] + bs[k]);
    assert multiset([e] + bs[k]) == multiset{e} + x;
    assert a == (a + x) - x;
    assert Bag(bs) + multiset{e} == (Bag(bs) + (multiset{e} + x)) - x;
  }

  lemma TakeOut<E>(bs: seq<seq<E>>, k: nat, i: nat)
    requires k < |bs| && i < |bs[k]|
    ensures bs[k][i] in Bag(bs)
    ensures Bag(bs[k := bs[k][..i] + bs[k][i + 1..]]) == Bag(bs) - multiset{bs[k][i]}
  {
    var rest, x := bs[k][..i] + bs[k][i + 1..], bs[k][i];
    assert bs[k] == bs[k][..i] + [x] + bs[k][i + 1..];
    assert multiset(bs[k]) == multiset(rest) + multiset{x};
    BagUpdate(bs, k, rest);
    BagMember(bs, x);
    var a := Bag(bs[k := rest]);
    assert (a + multiset{x}) + multiset(rest) == Bag(bs) + multiset(rest);
    assert a + multiset{x} == (a + multiset{x} + multiset(rest)) - multiset(rest);
    assert Bag(bs) == (Bag(bs) + multiset(rest)) - multiset(rest);
  }

  lemma {:induction false} BagMember<E>(bs: seq<seq<E>>, x: E)
    ensures x in Bag(bs) <==> exists b :: 0 <= b < |bs| && x in bs[b]
  {
    if bs != [] {
      var n := |bs| - 1;
      BagMember(bs[..n], x);
      if x in bs[n] {
        assert x in multiset(bs[n]);
      }
      if x in Bag(bs[..n]) {
        var b :| 0 <= b < n && x in bs[..n][b];
        assert x in bs[b];
      }
    }
  }

  lemma {:induction false} BagOfEmpty<E>(bs: seq<seq<E>>)
    requires forall b :: 0 <= b < |bs| ==> bs[b] == []
    ensures Bag(bs) == multiset{}
  {
    if bs != [] {
      BagOfEmpty(bs[..|bs| - 1]);
    }
  }
}

module HashTables {
  import opened Basics
  import opened HashOrder
  import opened BitOps
  import opened Arithmetic64

  const BEST_ELEMS_PER_BUCKET: nat := 2

  class Hash<E(==, !new)> {
    const hash: E -> nat
    const less: (E, E) -> bool
    var elemCnt: nat
    var bucketCnt: nat
    var buckets: seq<seq<E>>

    /** Every element is in the bucket its hash selects. */
    ghost predicate Placed(bs: seq<seq<E>>, cnt: nat)
      requires cnt > 0
    {
      forall b, i {:trigger bs[b][i]} :: 0 <= b < |bs| && 0 <= i < |bs[b]| ==> hash(bs[b][i]) % cnt == b
    }

    /** The elements of the table. */
    ghost function Contents(): multiset<E>
      reads this
    {
      Bag(buckets)
    }

    ghost predicate Valid()
      reads this
    {
      && Lawful(less, hash)
      && IsPowerOf2(bucketCnt) && bucketCnt >= 4 && |buckets| == bucketCnt
      && Placed(buckets, bucketCnt)
      && elemCnt == |Contents()|
      && Unique(less, Contents())
    }

    /** hash_init. */
    constructor (hash: E -> nat, less: (E, E) -> bool)
      requires Lawful(less, hash)
      ensures Valid() && Contents() == multiset{} && this.hash == hash && this.less == less
    {
      this.hash := hash;
      this.less := less;
      elemCnt := 0;
      bucketCnt := 4;
      buckets := [[], [], [], []];
      new;
      BagOfEmpty(buckets);
      assert 4 == Shl(1, 2);
    }

    /** find_bucket: masking with bucket_cnt - 1 is the remainder. */
    function FindBucket(e: E, cnt: nat): (b: nat)
      requires IsPowerOf2(cnt) && cnt > 0
      ensures b == hash(e) % cnt < cnt
    {
      assert And(hash(e), cnt - 1) == hash(e) % cnt by {
        var n :| cnt == Shl(1, n);
        AndLowBits(hash(e), n);
      }
      And(hash(e), cnt - 1)
    }

    /** find_elem on the bucket of e: position of the equivalent element of the table, if any. */
    method FindElem(e: E) returns (r: Option<nat>)
      requires Valid()
      ensures r.Some? ==> var b := hash(e) % bucketCnt; r.value < |buckets[b]| && Equiv(less, buckets[b][r.value], e)
      ensures r.Some? ==> IsLookup(less, Contents(), e, Some(buckets[hash(e) % bucketCnt][r.value]))
      ensures r.None? ==> IsLookup(less, Contents(), e, None)
    {
      var b := FindBucket(e, bucketCnt);
      var bucket := buckets[b];
      for i := 0 to |bucket|
        invariant forall j :: 0 <= j < i ==> !Equiv(less, bucket[j], e)
      {
        if !less(bucket[i], e) && !less(e, bucket[i]) {
          BagMember(buckets, bucket[i]);
          return Some(i);
        }
      }
      forall x | x in Contents()
        ensures !Equiv(less, x, e)
      {
        BagMember(buckets, x);
        var c :| 0 <= c < |buckets| && x in buckets[c];
        var i :| 0 <= i < |buckets[c]| && buckets[c][i] == x;
      }
      return None;
    }

    /** hash_find. */
    method Find(e: E) returns (r: Option<E>)
      requires Valid()
      ensures Does(less, FindOp(e), Contents(), r, Contents())
    {
      var i := FindElem(e);
      if i.None? {
        return None;
      }
      var b := FindBucket(e, bucketCnt);
      r := Some(buckets[b][i.value]);
    }

    /** insert_elem: at the front of its bucket. */
    method InsertElem(e: E)
      requires Valid() && IsLookup(less, Contents(), e, None)
      modifies this`elemCnt, this`buckets
      ensures Valid() && Contents() == old(Contents()) + multiset{e}
    {
      var b := FindBucket(e, bucketCnt);
      PushFront(buckets, b, e);
      elemCnt := elemCnt + 1;
      buckets := buckets[b := [e] + buckets[b]];
    }

    /** remove_elem: element i of the bucket of e. */
    method RemoveElem(e: E, i: nat) returns (x: E)
      requires Valid()
      requires i < |buckets[hash(e) % bucketCnt]|
      modifies this`elemCnt, this`buckets
      ensures x == old(buckets)[hash(e) % bucketCnt][i]
      ensures Valid() && x in old(Contents()) && Contents() == old(Contents()) - multiset{x}
    {
      var b := FindBucket(e, bucketCnt);
      var bucket := buckets[b];
      x := bucket[i];
      var rest := bucket[..i] + bucket[i + 1..];
      TakeOut(buckets, b, i);
      elemCnt := elemCnt - 1;
      buckets := buckets[b := rest];
    }

    /** One bucket for every two elements, at least four. */
    static function Ideal(elemCnt: nat): nat {
      if elemCnt / BEST_ELEMS_PER_BUCKET < 4 then 4 else elemCnt / BEST_ELEMS_PER_BUCKET
    }

    /** rehash: about two elements per bucket, at least four buckets; every element is moved exactly
        once.  Without memory the table stays as it is. */
    method Rehash(allocOk: bool)
      requires Valid()
      modifies this`bucketCnt, this`buckets
      ensures Valid() && Contents() == old(Contents())
      ensures allocOk ==> bucketCnt <= Ideal(elemCnt) < 2 * bucketCnt
      ensures !allocOk ==> bucketCnt == old(bucketCnt) && buckets == old(buckets)
    {
      var cnt := RoundDownToPowerOf2(Ideal(elemCnt));
      AtLeastFour(cnt);
      if cnt == bucketCnt || !allocOk {
        return;
      }
      var newBuckets := MoveAll(buckets, cnt);
      buckets, bucketCnt := newBuckets, cnt;
    }

    static lemma AtLeastFour(p: nat)
      requires IsPowerOf2(p) && p > 2
      ensures p >= 4
    {
      var n: nat :| p == Shl(1, n);
      if n >= 2 {
        assert Shl(1, n) == 2 * Shl(1, n - 1) == 4 * Shl(1, n - 2);
      }
    }

    /** The two nested loops of rehash. */
    method MoveAll(old_: seq<seq<E>>, cnt: nat) returns (bs: seq<seq<E>>)
      requires IsPowerOf2(cnt) && cnt > 0
      ensures |bs| == cnt && Placed(bs, cnt) && Bag(bs) == Bag(old_)
    {
      bs := seq(cnt, _ => []);
      BagOfEmpty(bs);
      assert old_[..0] == [];
      for i := 0 to |old_|
        invariant |bs| == cnt && Placed(bs, cnt)
        invariant Bag(bs) == Bag(old_[..i])
      {
        bs := MoveBucket(old_[i], bs, cnt);
        BagStep(old_, i);
      }
      assert old_[..|old_|] == old_;
    }

    method MoveBucket(bucket: seq<E>, bs0: seq<seq<E>>, cnt: nat) returns (bs: seq<seq<E>>)
      requires IsPowerOf2(cnt) && cnt > 0 && |bs0| == cnt && Placed(bs0, cnt)
      ensures |bs| == cnt && Placed(bs, cnt) && Bag(bs) == Bag(bs0) + multiset(bucket)
    {
      hide Bag;
      bs := bs0;
      for j := 0 to |bucket|
        invariant |bs| == cnt && Placed(bs, cnt)
        invariant Bag(bs) == Bag(bs0) + multiset(bucket[..j])
      {
        var e := bucket[j];
        var b := FindBucket(e, cnt);
        PushFront(bs, b, e);
        assert bucket[..j + 1] == bucket[..j] + [e];
        assert multiset(bucket[..j + 1]) == multiset(bucket[..j]) + multiset{e};
        bs := bs[b := [e] + bs[b]];
      }
      assert bucket[..|bucket|] == bucket;
    }

    /** hash_insert. */
    method Insert(e: E, allocOk: bool) returns (r: Option<E>)
      requires Valid()
      modifies this`elemCnt, this`bucketCnt, this`buckets
      ensures Valid() && Does(less, InsertOp(e), old(Contents()), r, Contents())
    {
      r := Find(e);
      if r.None? {
        InsertElem(e);
      }
      Rehash(allocOk);
    }

    /** hash_replace. */
    method Replace(e: E, allocOk: bool) returns (r: Option<E>)
      requires Valid()
      modifies this`elemCnt, this`bucketCnt, this`buckets
      ensures Valid() && Does(less, ReplaceOp(e), old(Contents()), r, Contents())
    {
      r := Remove(e);
      InsertElem(e);
      Rehash(allocOk);
    }

    /** hash_delete. */
    method Delete(e: E, allocOk: bool) returns (r: Option<E>)
      requires Valid()
      modifies this`elemCnt, this`bucketCnt, this`buckets
      ensures Valid() && Does(less, DeleteOp(e), old(Contents()), r, Contents())
    {
      r := Remove(e);
      if r.Some? {
        Rehash(allocOk);
      }
    }

    /** find_elem followed by remove_elem, as hash_replace and hash_delete use them. */
    method Remove(e: E) returns (r: Option<E>)
      requires Valid()
      modifies this`elemCnt, this`buckets
      ensures Valid() && Does(less, DeleteOp(e), old(Contents()), r, Contents())
      ensures IsLookup(less, Contents(), e, None)
    {
      r := None;
      var i := FindElem(e);
      if i.Some? {
        var x := RemoveElem(e, i.value);
        r := Some(x);
      }
      OperationsAreMapOperations(less, hash, DeleteOp(e), old(Contents()), r, Contents(), e, None);
    }
  }

  /** A hash_iterator: a bucket and a position in it; -1 is the list head that hash_first starts at. */
  datatype Cursor = Cursor(bucket: nat, index: int)

  /** How many elements come before the cursor's, bucket by bucket. */
  ghost function Visited<E>(bs: seq<seq<E>>, c: Cursor): multiset<E>
    requires c.bucket < |bs| && -1 <= c.index < |bs[c.bucket]|
  {
    Bag(bs[..c.bucket]) + multiset(bs[c.bucket][..c.index + 1])
  }

  /** hash_next: on to the next element, skipping empty buckets. */
  method Next<E>(bs: seq<seq<E>>, c: Cursor) returns (r: Option<Cursor>)
    requires c.bucket < |bs| && -1 <= c.index < |bs[c.bucket]|
    ensures r.Some? ==> var d := r.value;
      && d.bucket < |bs| && 0 <= d.index < |bs[d.bucket]|
      && Visited(bs, d) == Visited(bs, c) + multiset{bs[d.bucket][d.index]}
      && (d.bucket > c.bucket || (d.bucket == c.bucket && d.index > c.index))
    ensures r.None? ==> Visited(bs, c) == Bag(bs)
  {
    hide Bag;
    var b, i := c.bucket, c.index + 1;
    ghost var v := Visited(bs, c);
    while i == |bs[b]|
      invariant c.bucket <= b < |bs| && 0 <= i <= |bs[b]|
      invariant (b == c.bucket ==> i == c.index + 1) && (b > c.bucket ==> i == 0)
      invariant v == Bag(bs[..b]) + multiset(bs[b][..i])
      decreases |bs| - b
    {
      assert bs[b][..i] == bs[b];
      BagStep(bs, b);
      b := b + 1;
      if b >= |bs| {
        assert bs[..b] == bs;
        return None;
      }
      i := 0;
      assert bs[b][..i] == [];
    }
    assert bs[b][..i + 1] == bs[b][..i] + [bs[b][i]];
    r := Some(Cursor(b, i));
  }

  /** The iteration idiom of hash.c: every element is visited exactly once. */
  method Traverse<E>(bs: seq<seq<E>>) returns (visited: seq<E>)
    requires bs != []
    ensures multiset(visited) == Bag(bs)
  {
    visited := [];
    var c := Cursor(0, -1);
    assert bs[..0] == [] && bs[0][..0] == [];
    while true
      invariant c.bucket < |bs| && -1 <= c.index < |bs[c.bucket]|
      invariant multiset(visited) == Visited(bs, c)
      decreases |bs| - c.bucket, |bs[c.bucket]| - c.index
    {
      var n := Next(bs, c);
      if n.None? {
        break;
      }
      c := n.value;
      visited := visited + [bs[c.bucket][c.index]];
    }
  }

  /** Any sequence of operations, with memory available or not at each step: the table goes through
      the states of a set of elements up to equivalence, and returns what that set returns. */
  method Run<E(==, !new)>(h: Hash<E>, ops: seq<(Op<E>, bool)>)
    returns (results: seq<Option<E>>, ghost states: seq<multiset<E>>)
    requires h.Valid()
    modifies h
    ensures h.Valid()
    ensures |results| == |ops| && |states| == |ops| + 1
    ensures states[0] == old(h.Contents()) && states[|ops|] == h.Contents()
    ensures forall i :: 0 <= i < |ops| ==> Does(h.less, ops[i].0, states[i], results[i], states[i + 1])
  {
    hide *;
    results, states := [], [h.Contents()];
    for i := 0 to |ops|
      invariant h.Valid()
      invariant |results| == i && |states| == i + 1
      invariant states[0] == old(h.Contents()) && states[i] == h.Contents()
      invariant forall j :: 0 <= j < i ==> Does(h.less, ops[j].0, states[j], results[j], states[j + 1])
    {
      var r;
      match ops[i].0 {
        case InsertOp(e) => r := h.Insert(e, ops[i].1);
        case ReplaceOp(e) => r := h.Replace(e, ops[i].1);
        case DeleteOp(e) => r := h.Delete(e, ops[i].1);
        case FindOp(e) => r := h.Find(e);
      }
      results, states := results + [r], states + [h.Contents()];
    }
  }
}
