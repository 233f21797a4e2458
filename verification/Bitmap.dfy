/** What a bitmap means: a sequence of booleans. */
module Bits {
  import opened Basics

  /** Every bit of [start, start + cnt) equals `value`. */
  ghost predicate All(b: seq<bool>, start: nat, cnt: nat, value: bool) {
    start + cnt <= |b| && forall i :: start <= i < start + cnt ==> b[i] == value
  }

  /** `b` with [start, start + cnt) set to `value`. */
  ghost function SetRange(b: seq<bool>, start: nat, cnt: nat, value: bool): (r: seq<bool>)
    requires start + cnt <= |b|
    ensures |r| == |b|
    ensures forall i {:trigger r[i]} :: 0 <= i < |b| ==> r[i] == if start <= i < start + cnt then value else b[i]
  {
    seq(|b|, i requires 0 <= i < |b| => if start <= i < start + cnt then value else b[i])
  }

  /** `r` is the first group of `cnt` bits at or after `start` that all equal `value`. */
  ghost predicate IsFirstGroup(b: seq<bool>, start: nat, cnt: nat, value: bool, r: Option<nat>) {
    match r
    case Some(i) => start <= i && All(b, i, cnt, value) && forall j :: start <= j < i ==> !All(b, j, cnt, value)
    case None => forall j :: start <= j ==> !All(b, j, cnt, value)
  }

  /** Setting a range to `value` and back to its old, uniform content restores the bitmap. */
  lemma SetRangeUndone(b: seq<bool>, start: nat, cnt: nat, value: bool)
    requires All(b, start, cnt, !value)
    ensures SetRange(SetRange(b, start, cnt, value), start, cnt, !value) == b
  {
  }
}

/** The kernel bitmap: 32-bit words, single bits set by or, and, xor with a mask. */
module Bitmaps {
  import opened Basics
  import opened Bits
  import opened BitOps
  import opened Arithmetic64

  type Elem = w: nat | w < 0x1_0000_0000

  const ELEM_BITS: nat := 32

  function ElemIdx(bit: nat): nat { bit / ELEM_BITS }
  function ElemCnt(bitCnt: nat): nat { (bitCnt + ELEM_BITS - 1) / ELEM_BITS }

  /** The word where only the given bit is on. */
  function BitMask(bit: nat): (m: Elem)
  {
    MaskFits(bit % ELEM_BITS);
    Shl(1, bit % ELEM_BITS)
  }

  lemma MaskFits(k: nat)
    requires k <= 32
    ensures Shl(1, k) <= 0x1_0000_0000
    ensures k < 32 ==> Shl(1, k) < 0x1_0000_0000
  {
    Powers();
    ShlMonotone(0, 1, 32 - k);
    ShlAdd(1, k, 32 - k);
    ShlGrows(Shl(1, k), 32 - k);
  }

  lemma {:induction false} ShlGrows(x: nat, k: nat)
    ensures Shl(x, k) >= x
    ensures k > 0 && x > 0 ==> Shl(x, k) > x
  {
    if k > 0 {
      ShlGrows(x, k - 1);
    }
  }

  /** The instructions or, and, xor on a word and a mask, or its complement. */
  lemma WordFits(w: Elem, m: Elem)
    ensures Or(w, m) < 0x1_0000_0000 && And(w, Not32(m)) < 0x1_0000_0000 && Xor(w, m) < 0x1_0000_0000
  {
    Powers();
    OpsFit(w, m, 32);
    OpsFit(w, Not32(m), 32);
  }

  function Not32(m: Elem): Elem {
    Powers();
    Not(m, 32)
  }

  predicate Bit(words: seq<Elem>, bit: nat)
    requires ElemIdx(bit) < |words|
  {
    And(words[ElemIdx(bit)], BitMask(bit)) != 0
  }

  function OrBit(w: Elem, bit: nat): Elem { WordFits(w, BitMask(bit)); Or(w, BitMask(bit)) }
  function ClearBit(w: Elem, bit: nat): Elem { WordFits(w, BitMask(bit)); And(w, Not32(BitMask(bit))) }
  function XorBit(w: Elem, bit: nat): Elem { WordFits(w, BitMask(bit)); Xor(w, BitMask(bit)) }

  /** What the single-bit updates do to one word, seen through every mask. */
  lemma WordUpdate(w: Elem, bit: nat, j: nat)
    ensures And(OrBit(w, bit), BitMask(j)) != 0 <==> j % 32 == bit % 32 || And(w, BitMask(j)) != 0
    ensures And(ClearBit(w, bit), BitMask(j)) != 0 <==> j % 32 != bit % 32 && And(w, BitMask(j)) != 0
    ensures And(XorBit(w, bit), BitMask(j)) != 0 <==> ((j % 32 == bit % 32) != (And(w, BitMask(j)) != 0))
  {
    var k, m := j % 32, BitMask(bit);
    hide And, Or, Xor, Not, TestBit, Shl;
    AndMask(w, k);
    AndMask(OrBit(w, bit), k);
    AndMask(ClearBit(w, bit), k);
    AndMask(XorBit(w, bit), k);
    TestOr(w, m, k);
    TestXor(w, m, k);
    Powers();
    TestAnd(w, Not32(m), k);
    TestNot(m, 32, k);
    TestMask(bit % 32, k);
  }

  /** What the single-bit updates of one word do to every bit of the bitmap. */
  lemma BitUpdate(words: seq<Elem>, bit: nat, j: nat)
    requires ElemIdx(bit) < |words| && ElemIdx(j) < |words|
    ensures var w := words[ElemIdx(bit)];
      && Bit(words[ElemIdx(bit) := OrBit(w, bit)], j) == (j == bit || Bit(words, j))
      && Bit(words[ElemIdx(bit) := ClearBit(w, bit)], j) == (j != bit && Bit(words, j))
      && Bit(words[ElemIdx(bit) := XorBit(w, bit)], j) == ((j == bit) != Bit(words, j))
  {
    hide And, BitMask, OrBit, ClearBit, XorBit;
    WordUpdate(words[ElemIdx(bit)], bit, j);
  }

  class Bitmap {
    const bitCnt: nat
    const bits: array<Elem>

    ghost predicate Valid() {
      bits.Length == ElemCnt(bitCnt)
    }

    /** The bits, one boolean each. */
    ghost function View(): (b: seq<bool>)
      requires Valid()
      reads bits
      ensures |b| == bitCnt
      ensures forall i {:trigger b[i]} :: 0 <= i < bitCnt ==> b[i] == Bit(bits[..], i)
    {
      var words := bits[..];
      seq(bitCnt, i requires 0 <= i < bitCnt => Bit(words, i))
    }

    /** bitmap_create: all bits false. */
    constructor (bitCnt: nat)
      ensures Valid() && this.bitCnt == bitCnt && fresh(bits)
      ensures View() == seq(bitCnt, _ => false)
    {
      this.bitCnt := bitCnt;
      bits := new Elem[ElemCnt(bitCnt)];
      new;
      SetMultiple(0, bitCnt, false);
    }

    /** bitmap_mark, bitmap_reset and bitmap_flip, one update of one word each. */
    method Mark(bit: nat)
      requires Valid() && bit < bitCnt
      modifies bits
      ensures View() == old(View())[bit := true]
    {
      hide Bit, OrBit, ClearBit, XorBit;
      ghost var words := bits[..];
      forall j | 0 <= j < bitCnt { BitUpdate(words, bit, j); }
      bits[ElemIdx(bit)] := OrBit(bits[ElemIdx(bit)], bit);
      assert bits[..] == words[ElemIdx(bit) := bits[ElemIdx(bit)]];
    }

    method Reset(bit: nat)
      requires Valid() && bit < bitCnt
      modifies bits
      ensures View() == old(View())[bit := false]
    {
      hide Bit, OrBit, ClearBit, XorBit;
      ghost var words := bits[..];
      forall j | 0 <= j < bitCnt { BitUpdate(words, bit, j); }
      bits[ElemIdx(bit)] := ClearBit(bits[ElemIdx(bit)], bit);
      assert bits[..] == words[ElemIdx(bit) := bits[ElemIdx(bit)]];
    }

    method Flip(bit: nat)
      requires Valid() && bit < bitCnt
      modifies bits
      ensures View() == old(View())[bit := !old(View())[bit]]
    {
      hide Bit, OrBit, ClearBit, XorBit;
      ghost var words := bits[..];
      forall j | 0 <= j < bitCnt { BitUpdate(words, bit, j); }
      bits[ElemIdx(bit)] := XorBit(bits[ElemIdx(bit)], bit);
      assert bits[..] == words[ElemIdx(bit) := bits[ElemIdx(bit)]];
    }

    method Set(bit: nat, value: bool)
      requires Valid() && bit < bitCnt
      modifies bits
      ensures View() == old(View())[bit := value]
    {
      if value {
        Mark(bit);
      } else {
        Reset(bit);
      }
    }

    method Test(bit: nat) returns (r: bool)
      requires Valid() && bit < bitCnt
      ensures r == View()[bit]
    {
      r := And(bits[ElemIdx(bit)], BitMask(bit)) != 0;
    }

    /** bitmap_set_multiple. */
    method SetMultiple(start: nat, cnt: nat, value: bool)
      requires Valid() && start + cnt <= bitCnt
      modifies bits
      ensures View() == SetRange(old(View()), start, cnt, value)
    {
      ghost var b := View();
      for i := 0 to cnt
        invariant View() == SetRange(b, start, i, value)
      {
        Set(start + i, value);
      }
    }

    /** bitmap_contains. */
    method Contains(start: nat, cnt: nat, value: bool) returns (r: bool)
      requires Valid() && start + cnt <= bitCnt
      ensures !r <==> All(View(), start, cnt, !value)
    {
      for i := 0 to cnt
        invariant All(View(), start, i, !value)
      {
        var t := Test(start + i);
        if t == value {
          return true;
        }
      }
      return false;
    }

    /** bitmap_scan. */
    method Scan(start: nat, cnt: nat, value: bool) returns (r: Option<nat>)
      requires Valid() && start <= bitCnt
      ensures IsFirstGroup(View(), start, cnt, value, r)
    {
      if cnt <= bitCnt {
        var last := bitCnt - cnt;
        var i := start;
        while i <= last
          invariant start <= i
          invariant forall j :: start <= j < i ==> !All(View(), j, cnt, value)
        {
          var c := Contains(i, cnt, !value);
          if !c {
            return Some(i);
          }
          i := i + 1;
        }
      }
      return None;
    }

    /** bitmap_scan_and_flip. */
    method ScanAndFlip(start: nat, cnt: nat, value: bool) returns (r: Option<nat>)
      requires Valid() && start <= bitCnt
      modifies bits
      ensures IsFirstGroup(old(View()), start, cnt, value, r)
      ensures r.None? ==> View() == old(View())
      ensures r.Some? ==> r.value + cnt <= bitCnt && View() == SetRange(old(View()), r.value, cnt, !value)
    {
      r := Scan(start, cnt, value);
      if r.Some? {
        SetMultiple(r.value, cnt, !value);
      }
    }
  }
}
