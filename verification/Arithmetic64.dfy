/** 64-bit division built from the x86 instruction that divides 64 bits by 32 and traps when the
    quotient needs more than 32 bits.  Machine integers are integers with explicit wrap-around. */
module Arithmetic64 {

  const B31: int := 0x8000_0000
  const B32: int := 0x1_0000_0000
  const B63: int := 0x8000_0000_0000_0000
  const B64: int := 0x1_0000_0000_0000_0000

  type Word = n: int | 0 <= n < B32
  type Long = n: int | 0 <= n < B64
  type SignedLong = n: int | -B63 <= n < B63

  function U32(n: int): Word { n % B32 }
  function U64(n: int): Long { n % B64 }

  /** Reinterprets the low 64 (32) bits as a two's complement number. */
  function S64(n: int): SignedLong { if n % B64 < B63 then n % B64 else n % B64 - B64 }
  function S32(n: int): int { if n % B32 < B31 then n % B32 else n % B32 - B32 }

  /** x shifted left by k bits, unbounded. */
  function Shl(x: nat, k: nat): (y: nat)
    ensures x > 0 ==> y > 0
  {
    if k == 0 then x else 2 * Shl(x, k - 1)
  }

  /** The divl instruction: its precondition is that it does not trap. */
  function Divl(n: Long, d: Word): (q: Word)
    requires d != 0
    requires n / d < B32
  {
    n / d
  }

  // ----- Products and quotients, kept folded in the longer proofs -----

  ghost function Mul(a: int, b: int): int { a * b }

  /** q is the floor of n / d. */
  ghost predicate IsQuot(n: int, d: int, q: int) {
    0 < d && Mul(q, d) <= n < Mul(q, d) + d
  }

  lemma MulLe(a: int, b: int, c: int)
    requires a <= b && c >= 0
    ensures Mul(a, c) <= Mul(b, c) && Mul(c, a) <= Mul(c, b)
  {
  }

  lemma MulCancel(a: int, b: int, c: int)
    requires Mul(a, c) <= Mul(b, c) && c > 0
    ensures a <= b
  {
  }

  lemma MulAlgebra(a: int, b: int, c: int)
    ensures Mul(a, b) == Mul(b, a)
    ensures Mul(a + b, c) == Mul(a, c) + Mul(b, c) && Mul(a - b, c) == Mul(a, c) - Mul(b, c)
    ensures Mul(Mul(a, b), c) == Mul(a, Mul(b, c)) == Mul(Mul(a, c), b)
    ensures Mul(1, c) == c && Mul(2, c) == 2 * c && Mul(0, c) == 0
  {
  }

  lemma QuotUnique(n: int, d: int, q: int)
    requires IsQuot(n, d, q)
    ensures n / d == q
  {
    var k := n / d;
    if k > q {
      MulLe(q + 1, k, d);
    } else if k < q {
      MulLe(k + 1, q, d);
    }
  }

  lemma QuotExists(n: int, d: int)
    requires d > 0
    ensures IsQuot(n, d, n / d)
  {
  }

  /** Dividing twice is dividing by the product. */
  lemma QuotQuot(n: int, a: int, k: int, b: int, q: int)
    requires IsQuot(n, a, k) && IsQuot(k, b, q)
    ensures Mul(a, b) > 0 && IsQuot(n, Mul(a, b), q)
  {
    assert Mul(a, b) > 0;
    hide Mul;
    MulLe(Mul(q, b), k, a);
    MulLe(k + 1, Mul(q, b) + b, a);
    MulAlgebra(Mul(q, b), b, a);
    MulAlgebra(k, 1, a);
    MulAlgebra(q, b, a);
    MulAlgebra(a, b, a);
  }

  // ----- nlz -----

  lemma ShlFour(x: nat, n: nat)
    ensures Shl(x, n + 4) == 0x10 * Shl(x, n)
  {
    assert Shl(x, n + 4) == 2 * Shl(x, n + 3) == 4 * Shl(x, n + 2) == 8 * Shl(x, n + 1);
  }

  lemma ShlSixteen(x: nat, n: nat)
    ensures Shl(x, n + 8) == 0x100 * Shl(x, n)
    ensures Shl(x, n + 16) == 0x10000 * Shl(x, n)
  {
    ShlFour(x, n);
    ShlFour(x, n + 4);
    ShlFour(x, n + 8);
    ShlFour(x, n + 12);
  }

  lemma {:induction false} ShlAdd(x: nat, n: nat, k: nat)
    ensures Shl(Shl(x, n), k) == Shl(x, n + k)
  {
    if k > 0 {
      ShlAdd(x, n, k - 1);
    }
  }

  lemma {:induction false} ShlMonotone(x: nat, y: nat, k: nat)
    ensures x < y ==> Shl(x, k) < Shl(y, k)
  {
    if k > 0 {
      ShlMonotone(x, y, k - 1);
    }
  }

  lemma Powers()
    ensures Shl(1, 0) == 1 && Shl(1, 16) == 0x1_0000 && Shl(1, 31) == B31 && Shl(1, 32) == B32
  {
    ShlSixteen(1, 0);
    ShlSixteen(1, 16);
  }

  /** One step of nlz: if the top k bits of y are zero, shift them out. */
  method ShiftZeros(n: nat, y: Word, k: nat, ghost x: nat) returns (n': nat, y': Word)
    requires k <= 16 && y == Shl(x, n) && y >= Shl(1, 32 - 2 * k)
    ensures n' == n || n' == n + k
    ensures y' == Shl(x, n') && y' >= Shl(1, 32 - k)
  {
    Powers();
    hide Shl;
    n', y' := n, y;
    if y < Shl(1, 32 - k) {
      ShlMonotone(y, Shl(1, 32 - k), k);
      ShlMonotone(y, Shl(1, 32 - 2 * k), k);
      ShlMonotone(Shl(1, 32 - 2 * k), y, k);
      ShlAdd(1, 32 - k, k);
      ShlAdd(1, 32 - 2 * k, k);
      ShlAdd(x, n, k);
      n', y' := n + k, U32(Shl(y, k));
    }
  }

  /** nlz: shifting x left by the result brings its highest 1 bit to bit 31. */
  method Nlz(x: Word) returns (n: nat)
    requires x != 0
    ensures n <= 31
    ensures B31 <= Shl(x, n) < B32
  {
    Powers();
    var y;
    n, y := ShiftZeros(0, x, 16, x);
    n, y := ShiftZeros(n, y, 8, x);
    n, y := ShiftZeros(n, y, 4, x);
    n, y := ShiftZeros(n, y, 2, x);
    n, y := ShiftZeros(n, y, 1, x);
  }

  // ----- Small divisors: the proof in the source's comment -----

  /** With n1, n0 the halves of n, k = n1 mod d and t = n1 / d. */
  lemma SplitDivision(n: Long, d: int)
    requires 0 < d < B32
    ensures var m := B32 * ((n / B32) % d) + n % B32;
      && 0 <= m < B64
      && m / d < B32
      && n / d == m / d + B32 * ((n / B32) / d)
  {
    var n1, n0 := n / B32, n % B32;
    var t, k := n1 / d, n1 % d;
    var m := B32 * k + n0;
    var q := m / d;
    assert n == m + B32 * Mul(t, d);
    assert m < Mul(B32, d);
    QuotExists(m, d);
    hide Mul;
    if q >= B32 {
      MulLe(B32, q, d);
    }
    MulAlgebra(q, B32 * t, d);
    assert Mul(B32 * t, d) == B32 * Mul(t, d) by { Scale(t, d); }
    QuotUnique(n, d, q + B32 * t);
  }

  lemma Scale(t: int, d: int)
    ensures Mul(B32 * t, d) == B32 * Mul(t, d)
  {
  }

  // ----- Large divisors: estimate and correct -----

  /** Replacing d by a smaller w overestimates the quotient by at most one when the gap is small. */
  lemma EstimateIsClose(n: nat, d: int, w: int, q: int, e: int)
    requires IsQuot(n, d, q) && IsQuot(n, w, e) && w <= d
    requires Mul(n, d - w) <= Mul(w, d)
    requires q >= 0
    ensures q <= e <= q + 1
  {
    hide Mul;
    MulLe(w, d, q);
    MulAlgebra(e, 1, w);
    if q >= e + 1 {
      MulLe(e + 1, q, w);
    }
    // (q + 2) * w > n, for its product with d exceeds n * d.
    assert n < Mul(q + 2, w) by {
      MulAlgebra(q, 2, d);
      MulAlgebra(1, 1, d);
      MulLe(n + 1 + d, Mul(q + 2, d), w);
      MulAlgebra(q + 2, d, w);
      MulAlgebra(n + 1, d, w);
      MulAlgebra(n, 1, w);
      MulAlgebra(d, w, n);
      MulAlgebra(n, d - w, n);
      MulAlgebra(n, d, n);
      MulAlgebra(n, w, n);
      MulAlgebra(w, d, n);
      if Mul(q + 2, w) <= n {
        MulLe(Mul(q + 2, w), n, d);
      }
    }
    if q + 2 <= e {
      MulLe(q + 2, e, w);
    }
  }

  /** 4 c^2 (p - 1) <= (c p)^2. */
  lemma SquareBound(c: int, p: int)
    ensures Mul(4 * Mul(c, c), p - 1) <= Mul(Mul(c, p), Mul(c, p))
  {
    var k := c * c;
    assert k * ((p - 2) * (p - 2)) >= 0;
    assert (p - 2) * (p - 2) == p * p - 4 * (p - 1);
    assert k * (p * p - 4 * (p - 1)) == k * (p * p) - (4 * k) * (p - 1);
    assert (c * p) * (c * p) == k * (p * p);
  }

  /** n < 4 c^2 is small against w * d when w is d cut down to at least c at scale p. */
  lemma GapIsSmall(n: nat, d: int, w: int, p: int, c: nat)
    requires n < 4 * Mul(c, c)
    requires p >= 2 && 0 <= Mul(c, p) <= w <= d <= w + p - 1
    ensures Mul(n, d - w) <= Mul(w, d)
  {
    hide Mul;
    var m := Mul(c, p);
    MulLe(d - w, p - 1, n);
    MulLe(n, 4 * Mul(c, c), p - 1);
    SquareBound(c, p);
    MulLe(m, w, m);
    MulLe(m, d, w);
  }

  lemma {:induction false} ShlIsProduct(x: nat, k: nat)
    ensures Shl(x, k) == Mul(x, Shl(1, k))
  {
    if k > 0 {
      ShlIsProduct(x, k - 1);
    }
  }

  lemma {:induction false} ShlSplit(s: nat)
    requires s <= 32
    ensures Mul(Shl(1, s), Shl(1, 32 - s)) == B32
  {
    hide Mul;
    if s == 0 {
      Powers();
      MulAlgebra(1, 1, B32);
    } else {
      var a, b := Shl(1, s - 1), Shl(1, 32 - s);
      ShlSplit(s - 1);
      assert Shl(1, s) == 2 * a && Shl(1, 32 - (s - 1)) == 2 * b;
      assert Mul(2 * a, b) == Mul(a, 2 * b) by { Double(a, b); }
    }
  }

  lemma Double(a: int, b: int)
    ensures Mul(2 * a, b) == Mul(a, 2 * b)
  {
  }

  /** d shifted left until its top bit is at bit 63 (h = 2^s) stays in 64 bits; its high word is d
      at scale p = 2^(32-s). */
  lemma TopBits(d: Long, d1: int, h: int, p: int)
    requires d1 == d / B32 && h > 0 && p > 0 && Mul(h, p) == B32
    requires B31 <= Mul(d1, h) < B32
    ensures Mul(d, h) < B64
    ensures var v := Mul(d, h) / B32;
      B31 <= v < B32 && IsQuot(d, p, v)
  {
    var v := Mul(d, h) / B32;
    assert d1 + 1 <= p by {
      MulAlgebra(h, p, 0);
      if p <= d1 { MulLe(p, d1, h); }
    }
    assert Mul(d, h) <= B64 - h by {
      MulLe(d1 + 1, p, h);
      MulAlgebra(h, p, 0);
      MulLe(d, B32 * (d1 + 1) - 1, h);
      Scale(d1 + 1, h);
      MulAlgebra(B32 * (d1 + 1), 1, h);
    }
    assert v >= Mul(d1, h) by {
      MulLe(B32 * d1, d, h);
      Scale(d1, h);
    }
    assert IsQuot(d, p, v) by { HighWord(d, h, p, v); }
  }

  lemma HighWord(d: int, h: int, p: int, v: int)
    requires h > 0 && p > 0 && Mul(h, p) == B32
    requires B32 * v <= Mul(d, h) < B32 * v + B32
    ensures IsQuot(d, p, v)
  {
    hide Mul;
    MulAlgebra(v, p, h);
    MulAlgebra(h, p, v);
    MulAlgebra(v, Mul(h, p), 0);
    assert Mul(B32, v) == B32 * v by { Times32(v); }
    assert Mul(Mul(v, p), h) == B32 * v;
    MulCancel(Mul(v, p), d, h);
    MulAlgebra(Mul(v, p), p, h);
    MulAlgebra(p, h, 0);
    if Mul(v, p) + p <= d {
      MulLe(Mul(v, p) + p, d, h);
    }
  }

  lemma Times32(v: int)
    ensures Mul(B32, v) == B32 * v
  {
  }

  /** The large-divisor divl call fits 32 bits, and shifted it is the close estimate. */
  lemma NoTrap(n: Long, d: Long, s: nat)
    requires B32 <= d <= n && s <= 31
    requires B31 <= Shl(d / B32, s) < B32
    ensures Shl(d, s) < B64
    ensures var v := Shl(d, s) / B32;
      && B31 <= v < B32
      && n / 2 / v < B32
      && 1 <= n / d <= n / 2 / v / Shl(1, 31 - s) <= n / d + 1
  {
    var h, p, t := Shl(1, s), Shl(1, 32 - s), Shl(1, 31 - s);
    ShlIsProduct(d / B32, s);
    ShlIsProduct(d, s);
    ShlSplit(s);
    TopBits(d, d / B32, h, p);
    var v := Shl(d, s) / B32;
    assert p == 2 * t;
    Estimate(n, d, v, p, t);
  }

  lemma Estimate(n: Long, d: int, v: int, p: int, t: int)
    requires d <= n && B31 <= v < B32 && t > 0 && p == 2 * t && IsQuot(d, p, v)
    ensures n / 2 / v < B32
    ensures 1 <= n / d <= n / 2 / v / t <= n / d + 1
  {
    var q, a := n / d, n / 2 / v;
    QuotExists(n, d);
    QuotExists(n, 2);
    QuotExists(n / 2, v);
    QuotExists(a, t);
    assert q >= 1 by { One(n, d); }
    assert Mul(B31, B31) == B64 / 4 && Mul(B32, B31) == B63 && Mul(B31, p) == B31 * p;
    hide Mul;
    if a >= B32 {
      MulLe(B32, a, v);
      MulLe(B31, v, B32);
    }
    QuotQuot(n, 2, n / 2, v, a);
    QuotQuot(n, Mul(2, v), a, t, a / t);
    var w := Mul(Mul(2, v), t);
    assert w == Mul(v, p) by {
      MulAlgebra(2, v, t);
      MulAlgebra(v, Mul(2, t), t);
    }
    MulLe(B31, v, p);
    GapIsSmall(n, d, w, p, B31);
    EstimateIsClose(n, d, w, q, a / t);
  }

  lemma One(n: nat, d: int)
    requires 0 < d
    ensures d <= n ==> n / d >= 1
    ensures 0 <= n / d <= n
  {
    var q := n / d;
    QuotExists(n, d);
    hide Mul;
    MulAlgebra(q, 1, d);
    MulAlgebra(q, 1, q);
    if q < 0 {
      MulLe(q + 1, 0, d);
    } else {
      MulLe(1, d, q);
    }
    if q < 1 {
      MulLe(q, 0, d);
    }
  }

  lemma U64Fits(n: int)
    ensures 0 <= n < B64 ==> U64(n) == n
  {
  }

  /** The comparison after the estimate e: no wrap-around, and it picks the exact quotient. */
  lemma Correction(n: Long, d: Long, e: Long)
    requires d > 0 && 1 <= n / d <= e <= n / d + 1
    ensures (if U64(n - U64(U64(e - 1) * d)) < d then e - 1 else e) == n / d
  {
    var q := n / d;
    assert (e - 1) * d == Mul(e - 1, d);
    QuotExists(n, d);
    hide Mul, U64;
    MulLe(e - 1, q, d);
    MulLe(0, e - 1, d);
    MulAlgebra(q, 1, d);
    U64Fits(e - 1);
    U64Fits((e - 1) * d);
    U64Fits(n - (e - 1) * d);
  }

  /** udiv64: exactly the floor of n / d, through divl calls that never trap. */
  method Udiv64(n: Long, d: Long) returns (q: Long)
    requires d != 0
    ensures q == n / d
  {
    if d / B32 == 0 {
      q := DivideBySmall(n, d);
    } else if n < d {
      QuotUnique(n, d, 0);
      q := 0;
    } else {
      hide U64, Shl;
      var s := Nlz(d / B32);
      NoTrap(n, d, s);
      U64Fits(Shl(d, s));
      var e := Divl(n / 2, U64(Shl(d, s)) / B32) / Shl(1, 31 - s);
      Correction(n, d, e);
      q := if U64(n - U64(U64(e - 1) * d)) < d then e - 1 else e;
    }
  }

  /** udiv64 for a divisor that fits 32 bits. */
  method DivideBySmall(n: Long, d: Long) returns (q: Long)
    requires 0 < d < B32
    ensures q == n / d
  {
    hide U64;
    var n1, n0 := n / B32, U32(n);
    SplitDivision(n, d);
    One(n, d);
    U64Fits(B32 * (n1 % d) + n0);
    U64Fits(B32 * (n1 / d));
    U64Fits(n / d);
    q := U64(Divl(U64(B32 * (n1 % d) + n0), d) + U64(B32 * (n1 / d)));
  }

  // ----- Remainders and signed division -----

  /** umod64 returns 32 bits: it is the remainder exactly when the remainder fits them. */
  method Umod64(n: Long, d: Long) returns (r: Word)
    requires d != 0
    ensures r == (n % d) % B32
    ensures r == n % d <==> n % d < B32
  {
    var q := Udiv64(n, d);
    assert n - d * q == n % d;
    U64Fits(d * q);
    assert 0 <= d * q <= n by { MulLe(0, q, d); }
    r := U32(U64(n - U64(d * q)));
  }

  function Abs(n: int): nat { if n < 0 then -n else n }

  /** C's division: toward zero. */
  function TruncDiv(n: int, d: int): int
    requires d != 0
  {
    var q := Abs(n) / Abs(d);
    if (n < 0) == (d < 0) then q else -q
  }

  ghost function TruncRem(n: int, d: int): int
    requires d != 0
  {
    n - d * TruncDiv(n, d)
  }

  /** The truncated quotient and remainder are what C requires: |r| < |d| and r has n's sign. */
  lemma TruncRemSign(n: int, d: int)
    requires d != 0
    ensures Abs(TruncRem(n, d)) < Abs(d)
    ensures TruncRem(n, d) != 0 ==> (TruncRem(n, d) < 0 <==> n < 0)
    ensures Abs(TruncRem(n, d)) == Abs(n) % Abs(d)
  {
    var a: int, b: int := Abs(n), Abs(d);
    var q: int := a / b;
    assert a == b * q + a % b;
    assert d * TruncDiv(n, d) == if n < 0 then -(b * q) else b * q;
  }

  /** sdiv64 is truncating division for every pair but INT64_MIN / -1. */
  method Sdiv64(n: SignedLong, d: SignedLong) returns (q: SignedLong)
    requires d != 0
    ensures q == S64(TruncDiv(n, d))
    ensures q == TruncDiv(n, d) <==> !(n == -B63 && d == -1)
  {
    AbsFits(n);
    AbsFits(d);
    var nAbs := if n >= 0 then U64(n) else U64(0 - (U64(n) as int));
    var dAbs := if d >= 0 then U64(d) else U64(0 - (U64(d) as int));
    hide U64, S64;
    var qAbs := Udiv64(nAbs, dAbs);
    QuotientFits(Abs(n), Abs(d));
    SignFits(qAbs);
    q := if (n < 0) == (d < 0) then S64(qAbs) else S64(0 - (S64(qAbs) as int));
  }

  lemma AbsFits(n: SignedLong)
    ensures (if n >= 0 then U64(n) else U64(0 - (U64(n) as int))) == Abs(n)
  {
  }

  lemma SignFits(q: nat)
    requires q <= B63
    ensures S64(q) == if q == B63 then -B63 else q
    ensures S64(0 - (S64(q) as int)) == -(q as int) == S64(-(q as int))
  {
  }

  /** A quotient of magnitudes up to 2^63 reaches 2^63 only as 2^63 / 1. */
  lemma QuotientFits(a: nat, b: nat)
    requires a <= B63 && b > 0
    ensures 0 <= a / b <= a
    ensures a / b == B63 <==> a == B63 && b == 1
  {
    One(a, b);
    QuotExists(a, b);
    var q := a / b;
    hide Mul;
    MulAlgebra(q, b, q);
    MulAlgebra(q, 2, q);
    if b >= 2 {
      MulLe(2, b, q);
    } else {
      MulAlgebra(q, 1, q);
    }
  }

  /** smod64 returns 32 bits: it is C's remainder exactly when that fits them. */
  method Smod64(n: SignedLong, d: SignedLong) returns (r: int)
    requires d != 0
    ensures r == S32(TruncRem(n, d))
    ensures r == TruncRem(n, d) <==> -B31 <= TruncRem(n, d) < B31
  {
    var q := Sdiv64(n, d);
    TruncRemSign(n, d);
    WrappedRemainder(n, d, q);
    S32Fits(TruncRem(n, d));
    hide S64, S32, TruncRem, TruncDiv;
    r := S32(S64(n - S64(d * q)));
  }

  lemma S32Fits(n: int)
    ensures -B31 <= S32(n) < B31
    ensures -B31 <= n < B31 ==> S32(n) == n
  {
  }

  lemma S64Fits(n: int)
    ensures -B63 <= n < B63 ==> S64(n) == n
  {
  }

  /** Wrap-around in the quotient, the product and the difference cancels out. */
  lemma WrappedRemainder(n: SignedLong, d: SignedLong, q: int)
    requires d != 0 && q == S64(TruncDiv(n, d))
    requires q == TruncDiv(n, d) <==> !(n == -B63 && d == -1)
    ensures S64(n - S64(d * q)) == TruncRem(n, d)
  {
    if n == -B63 && d == -1 {
      assert TruncDiv(n, d) == B63;
    } else {
      TruncRemSign(n, d);
      QuotientFits(Abs(n), Abs(d));
      var p := d * q;
      assert p == n - TruncRem(n, d);
      assert Abs(n) % Abs(d) <= Abs(n);
      hide TruncRem, S64;
      S64Fits(p);
      S64Fits(n - p);
    }
  }
}
