/** Bitwise operations on natural numbers, bit by bit from the lowest. */
module BitOps {
  import opened Arithmetic64

  /** Bit k of x. */
  predicate TestBit(x: nat, k: nat) {
    if k == 0 then x % 2 == 1 else TestBit(x / 2, k - 1)
  }

  function And(a: nat, b: nat): nat {
    if a == 0 then 0 else (if a % 2 == 1 && b % 2 == 1 then 1 else 0) + 2 * And(a / 2, b / 2)
  }

  function Or(a: nat, b: nat): nat
    decreases a + b
  {
    if a + b == 0 then 0 else (if a % 2 == 1 || b % 2 == 1 then 1 else 0) + 2 * Or(a / 2, b / 2)
  }

  function Xor(a: nat, b: nat): nat
    decreases a + b
  {
    if a + b == 0 then 0 else (if a % 2 != b % 2 then 1 else 0) + 2 * Xor(a / 2, b / 2)
  }

  /** The complement in n bits. */
  function Not(a: nat, n: nat): (r: nat)
    requires a < Shl(1, n)
  {
    Shl(1, n) - 1 - a
  }

  lemma {:induction false} TestZero(k: nat)
    ensures !TestBit(0, k)
  {
    if k > 0 {
      TestZero(k - 1);
    }
  }

  lemma {:induction false} TestAnd(a: nat, b: nat, k: nat)
    ensures TestBit(And(a, b), k) == (TestBit(a, k) && TestBit(b, k))
    decreases k
  {
    if a == 0 {
      TestZero(k);
    } else if k > 0 {
      TestAnd(a / 2, b / 2, k - 1);
    }
  }

  lemma {:induction false} TestOr(a: nat, b: nat, k: nat)
    ensures TestBit(Or(a, b), k) == (TestBit(a, k) || TestBit(b, k))
    decreases k
  {
    if a + b == 0 {
      TestZero(k);
    } else if k > 0 {
      TestOr(a / 2, b / 2, k - 1);
    }
  }

  lemma {:induction false} TestXor(a: nat, b: nat, k: nat)
    ensures TestBit(Xor(a, b), k) == (TestBit(a, k) != TestBit(b, k))
    decreases k
  {
    if a + b == 0 {
      TestZero(k);
    } else if k > 0 {
      TestXor(a / 2, b / 2, k - 1);
    }
  }

  lemma {:induction false} TestNot(a: nat, n: nat, k: nat)
    requires a < Shl(1, n) && k < n
    ensures TestBit(Not(a, n), k) == !TestBit(a, k)
    decreases k
  {
    assert Not(a, n) / 2 == Shl(1, n - 1) - 1 - a / 2;
    if k > 0 {
      TestNot(a / 2, n - 1, k - 1);
    }
  }

  /** The mask 1 << j has exactly bit j. */
  lemma {:induction false} TestMask(j: nat, k: nat)
    ensures TestBit(Shl(1, j), k) == (j == k)
    decreases k
  {
    if j == 0 && k > 0 {
      TestZero(k - 1);
    } else if k > 0 {
      TestMask(j - 1, k - 1);
    }
  }

  /** Testing a bit with a mask. */
  lemma {:induction false} AndMask(w: nat, k: nat)
    ensures And(w, Shl(1, k)) != 0 <==> TestBit(w, k)
    decreases k
  {
    if w == 0 {
      TestZero(k);
    } else if k == 0 {
      AndZero(w / 2);
    } else {
      AndMask(w / 2, k - 1);
    }
  }

  lemma {:induction false} AndZero(a: nat)
    ensures And(a, 0) == 0
  {
    if a > 0 {
      AndZero(a / 2);
    }
  }

  lemma {:induction false} OpsFit(a: nat, b: nat, n: nat)
    requires a < Shl(1, n) && b < Shl(1, n)
    ensures And(a, b) < Shl(1, n) && Or(a, b) < Shl(1, n) && Xor(a, b) < Shl(1, n)
    decreases n
  {
    if n > 0 {
      OpsFit(a / 2, b / 2, n - 1);
    }
  }

  /** Masking with 2^n - 1 is the remainder modulo 2^n. */
  lemma {:induction false} AndLowBits(x: nat, n: nat)
    ensures And(x, Shl(1, n) - 1) == x % Shl(1, n)
    decreases n
  {
    hide And;
    if n == 0 {
      AndZero(x);
    } else {
      var p := Shl(1, n - 1);
      AndLowBits(x / 2, n - 1);
      AndOdd(x, p);
      ModTwice(x, p);
    }
  }

  lemma AndOdd(x: nat, p: nat)
    requires p > 0
    ensures And(x, 2 * p - 1) == x % 2 + 2 * And(x / 2, p - 1)
  {
    var m := 2 * p - 1;
    assert m % 2 == 1 && m / 2 == p - 1;
  }

  lemma ModTwice(x: nat, p: nat)
    requires p > 0
    ensures x % (2 * p) == x % 2 + 2 * (x / 2 % p)
  {
    var q, r := x / 2 / p, x / 2 % p;
    assert x == 2 * (q * p + r) + x % 2;
    assert x == q * (2 * p) + (2 * r + x % 2);
    assert 0 <= 2 * r + x % 2 < 2 * p;
    QuotUnique(x, 2 * p, q);
  }
}
