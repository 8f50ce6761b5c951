/**
  Bit patterns as natural numbers.

  A field element of a binary field is stored in an unsigned w-bit register; here it is a `nat`.
  `Shift` and `Shr` are the left and right shifts, `Low(x, w)` is what a w-bit register keeps of
  x (lemma `LowIsMod`: x modulo 2^w), and `Xor` is bitwise exclusive or. Read as polynomials over GF(2) (bit i is the
  coefficient of x^i), `Xor` is polynomial addition, `Clmul` is polynomial multiplication and
  `Degree` is the polynomial degree.
*/
module Bits {

  function Pow2(n: nat): (r: nat)
    ensures r >= 1
  {
    if n == 0 then 1 else 2 * Pow2(n - 1)
  }

  /** Bitwise exclusive or. */
  function Xor(a: nat, b: nat): nat
    decreases a + b
  {
    if a == 0 && b == 0 then 0 else 2 * Xor(a / 2, b / 2) + (a + b) % 2
  }

  /** A left shift by j bits with no width limit: multiplication by x^j. */
  function Shift(x: nat, j: nat): nat
  {
    if j == 0 then x else 2 * Shift(x, j - 1)
  }

  /** The low n bits of x: what an n-bit register keeps of x. */
  function Low(x: nat, n: nat): (r: nat)
    ensures r < Pow2(n)
  {
    if n == 0 then 0 else 2 * Low(x / 2, n - 1) + x % 2
  }

  /** A w-bit left shift: the bits shifted past the register width are lost. */
  function Shl(x: nat, j: nat, w: nat): (r: nat)
    ensures r < Pow2(w)
  {
    Low(Shift(x, j), w)
  }

  /** A logical right shift by n bits. */
  function Shr(x: nat, n: nat): nat
  {
    if n == 0 then x else Shr(x / 2, n - 1)
  }

  /** Index of the highest set bit; -1 for zero (Galois/protocols.swift:39-41). */
  function Degree(x: nat): int
  {
    if x == 0 then -1 else 1 + Degree(x / 2)
  }

  /** Carry-less (GF(2) polynomial) multiplication without reduction. */
  function Clmul(a: nat, b: nat): nat
    decreases b
  {
    if b == 0 then 0 else Xor(if b % 2 == 1 then a else 0, Clmul(2 * a, b / 2))
  }

  // ---------------------------------------------------------------------------------------------
  // Powers of two and division

  lemma Pow2Add(m: nat, n: nat)
    ensures Pow2(m + n) == Pow2(m) * Pow2(n)
  {
    if n > 0 {
      Pow2Add(m, n - 1);
    }
  }

  lemma Pow2Monotone(m: nat, n: nat)
    requires m <= n
    ensures Pow2(m) <= Pow2(n)
  {
    if m < n {
      Pow2Monotone(m, n - 1);
    }
  }

  lemma MulMonotone(d: nat, a: nat, b: nat)
    requires a <= b
    ensures d * a <= d * b
  {
    assert d * b == d * a + d * (b - a);
  }

  lemma MulDouble(x: nat, p: nat)
    ensures x * (2 * p) == 2 * (x * p)
  {
  }

  lemma DivModUnique(x: nat, d: nat, q: nat, r: nat)
    requires d > 0 && r < d && x == d * q + r
    ensures x / d == q && x % d == r
  {
    var q', r' := x / d, x % d;
    assert x == d * q' + r';
    if q < q' {
      MulMonotone(d, q + 1, q');
    } else if q' < q {
      MulMonotone(d, q' + 1, q);
    }
  }

  lemma DivPow2Succ(x: nat, n: nat)
    ensures x / Pow2(n + 1) == (x / 2) / Pow2(n)
    ensures x % Pow2(n + 1) == 2 * ((x / 2) % Pow2(n)) + x % 2
  {
    var p, h, bit := Pow2(n), x / 2, x % 2;
    var q, r := h / p, h % p;
    assert h == p * q + r && r < p;
    var pq := p * q;
    assert x == 2 * pq + 2 * r + bit;
    var p2 := Pow2(n + 1);
    assert p2 == 2 * p;
    MulDouble(q, p);
    assert p2 * q == 2 * pq;
    DivModUnique(x, p2, q, 2 * r + bit);
  }

  /** For a value of at most n + 1 bits, shifting right by n leaves 1 exactly when bit n is set. */
  lemma {:induction false} ShrTop(x: nat, n: nat)
    requires x < Pow2(n + 1)
    ensures Shr(x, n) == 1 <==> x >= Pow2(n)
    decreases n
  {
    if n > 0 {
      ShrTop(x / 2, n - 1);
    }
  }

  /** Truncation to n bits is the remainder modulo 2^n. */
  lemma {:induction false} LowIsMod(x: nat, n: nat)
    ensures Low(x, n) == x % Pow2(n)
    decreases n
  {
    if n > 0 {
      LowIsMod(x / 2, n - 1);
      DivPow2Succ(x, n - 1);
    }
  }

  /** Truncation keeps a value that fits. */
  lemma {:induction false} LowSmall(x: nat, n: nat)
    requires x < Pow2(n)
    ensures Low(x, n) == x
    decreases n
  {
    if n > 0 {
      LowSmall(x / 2, n - 1);
    }
  }

  /** Truncating a number whose top bit is bit n to n bits drops that bit. */
  lemma LowTop(x: nat, n: nat)
    requires Pow2(n) <= x < 2 * Pow2(n)
    ensures Low(x, n) == x - Pow2(n)
  {
    LowIsMod(x, n);
    DivModUnique(x, Pow2(n), 1, x - Pow2(n));
  }

  /** A left shift that stays within the register loses nothing. */
  lemma ShlFits(x: nat, j: nat, w: nat)
    requires Shift(x, j) < Pow2(w)
    ensures Shl(x, j, w) == Shift(x, j)
  {
    LowSmall(Shift(x, j), w);
  }

  // ---------------------------------------------------------------------------------------------
  // Exclusive or

  lemma XorUnfold(a: nat, b: nat)
    ensures Xor(a, b) == 2 * Xor(a / 2, b / 2) + (a + b) % 2
    ensures Xor(a, b) / 2 == Xor(a / 2, b / 2) && Xor(a, b) % 2 == (a + b) % 2
  {
  }

  lemma {:induction false} XorZero(a: nat)
    ensures Xor(a, 0) == a && Xor(0, a) == a
    decreases a
  {
    if a != 0 {
      XorZero(a / 2);
    }
  }

  lemma {:induction false} XorSelf(a: nat)
    ensures Xor(a, a) == 0
    decreases a
  {
    if a != 0 {
      XorSelf(a / 2);
    }
  }

  lemma {:induction false} XorComm(a: nat, b: nat)
    ensures Xor(a, b) == Xor(b, a)
    decreases a + b
  {
    if a != 0 || b != 0 {
      XorComm(a / 2, b / 2);
    }
  }

  lemma {:induction false} XorAssoc(a: nat, b: nat, c: nat)
    ensures Xor(Xor(a, b), c) == Xor(a, Xor(b, c))
    decreases a + b + c
  {
    if a != 0 || b != 0 || c != 0 {
      var ab, bc := Xor(a, b), Xor(b, c);
      XorUnfold(a, b);
      XorUnfold(b, c);
      XorUnfold(ab, c);
      XorUnfold(a, bc);
      XorAssoc(a / 2, b / 2, c / 2);
      Parity3(a, b, c, ab, bc);
    }
  }

  lemma Parity3(a: nat, b: nat, c: nat, ab: nat, bc: nat)
    requires ab % 2 == (a + b) % 2 && bc % 2 == (b + c) % 2
    ensures (ab + c) % 2 == (a + bc) % 2
  {
    if a % 2 == 0 {
      assert (ab + c) % 2 == (b + c) % 2;
    }
  }

  /** Rearranging four terms: (p ^ q) ^ (r ^ s) == (p ^ r) ^ (q ^ s). */
  lemma XorSwap4(p: nat, q: nat, r: nat, s: nat)
    ensures Xor(Xor(p, q), Xor(r, s)) == Xor(Xor(p, r), Xor(q, s))
  {
    calc {
      Xor(Xor(p, q), Xor(r, s));
      { XorAssoc(p, q, Xor(r, s)); }
      Xor(p, Xor(q, Xor(r, s)));
      { XorAssoc(q, r, s); XorComm(q, r); XorAssoc(r, q, s); }
      Xor(p, Xor(r, Xor(q, s)));
      { XorAssoc(p, r, Xor(q, s)); }
      Xor(Xor(p, r), Xor(q, s));
    }
  }

  /** x ^ y ^ y == x */
  lemma XorCancel(x: nat, y: nat)
    ensures Xor(Xor(x, y), y) == x
  {
    XorAssoc(x, y, y);
    XorSelf(y);
    XorZero(x);
  }

  lemma XorParity(x: nat, y: nat)
    ensures Xor(x % 2, y % 2) == (x + y) % 2
  {
    var a, b := x % 2, y % 2;
    XorUnfold(a, b);
    ParityAdd(x, y);
  }

  lemma ParityAdd(x: nat, y: nat)
    ensures (x % 2 + y % 2) % 2 == (x + y) % 2
  {
  }

  lemma XorDouble(a: nat, b: nat)
    ensures Xor(2 * a, 2 * b) == 2 * Xor(a, b)
  {
    var x, y := 2 * a, 2 * b;
    XorUnfold(x, y);
    DivModUnique(x, 2, a, 0);
    DivModUnique(y, 2, b, 0);
    DivModUnique(x + y, 2, a + b, 0);
  }

  /** Setting bit 0 of an even number is adding it. */
  lemma XorLowBit(m: nat, bit: nat)
    requires bit < 2
    ensures Xor(2 * m, bit) == 2 * m + bit
  {
    var x := 2 * m;
    XorUnfold(x, bit);
    DivModUnique(x, 2, m, 0);
    DivModUnique(bit, 2, 0, bit);
    DivModUnique(x + bit, 2, m, bit);
    XorZero(m);
  }

  lemma {:induction false} XorBound(a: nat, b: nat, n: nat)
    requires a < Pow2(n) && b < Pow2(n)
    ensures Xor(a, b) < Pow2(n)
    decreases n
  {
    if n == 0 {
      assert a == 0 && b == 0;
    } else {
      XorBound(a / 2, b / 2, n - 1);
      XorUnfold(a, b);
    }
  }

  lemma LowUnfold(x: nat, n: nat)
    requires n > 0
    ensures Low(x, n) / 2 == Low(x / 2, n - 1) && Low(x, n) % 2 == x % 2
  {
  }

  /** The parity of a sum depends only on the parities of the terms. */
  lemma ParityAgree(x: nat, y: nat, a: nat, b: nat)
    requires x % 2 == a % 2 && y % 2 == b % 2
    ensures (x + y) % 2 == (a + b) % 2
  {
    ParityAdd(x, y);
    ParityAdd(a, b);
  }

  /** Truncation commutes with Xor. */
  lemma {:induction false} XorLow(a: nat, b: nat, n: nat)
    ensures Low(Xor(a, b), n) == Xor(Low(a, n), Low(b, n))
    decreases n
  {
    if n == 0 {
      XorZero(0);
    } else {
      var la, lb, x := Low(a, n), Low(b, n), Xor(a, b);
      var ha, hb := Low(a / 2, n - 1), Low(b / 2, n - 1);
      XorLow(a / 2, b / 2, n - 1);
      XorUnfold(a, b);
      assert Low(x, n) == 2 * Xor(ha, hb) + (a + b) % 2;
      LowUnfold(a, n);
      LowUnfold(b, n);
      ParityAgree(la, lb, a, b);
      XorUnfold(la, lb);
    }
  }

  // ---------------------------------------------------------------------------------------------
  // Degree

  lemma {:induction false} DegreeBounds(x: nat)
    requires x > 0
    ensures Degree(x) >= 0
    ensures Pow2(Degree(x)) <= x < Pow2(Degree(x) + 1)
    decreases x
  {
    if x > 1 {
      DegreeBounds(x / 2);
    }
  }

  lemma {:induction false} DegreeOf(x: nat, k: nat)
    requires Pow2(k) <= x < Pow2(k + 1)
    ensures Degree(x) == k
    decreases k
  {
    if k > 0 {
      DegreeOf(x / 2, k - 1);
    }
  }

  /** x fits in n bits exactly when its degree is below n. */
  lemma DegreeBelow(x: nat, n: nat)
    ensures x < Pow2(n) <==> Degree(x) < n
  {
    if x > 0 {
      DegreeBounds(x);
      if Degree(x) < n {
        Pow2Monotone(Degree(x) + 1, n);
      } else {
        Pow2Monotone(n, Degree(x));
      }
    }
  }

  lemma {:induction false} DegreeShift(x: nat, j: nat)
    requires x > 0
    ensures Degree(Shift(x, j)) == Degree(x) + j
    decreases j
  {
    if j > 0 {
      DegreeShift(x, j - 1);
      ShiftPositive(x, j - 1);
    }
  }

  lemma {:induction false} ShiftPositive(x: nat, j: nat)
    requires x > 0
    ensures Shift(x, j) > 0
    decreases j
  {
    if j > 0 {
      ShiftPositive(x, j - 1);
    }
  }

  lemma DegreeUnfold(z: nat)
    ensures Degree(z) >= -1
    ensures Degree(z) == -1 <==> z == 0
    ensures z > 0 ==> Degree(z) == 1 + Degree(z / 2)
  {
    if z > 0 {
      DegreeBounds(z);
    }
  }

  /** Adding a polynomial of lower degree keeps the degree. */
  lemma {:induction false} XorDegreeLower(x: nat, y: nat)
    requires Degree(x) < Degree(y)
    ensures Degree(Xor(x, y)) == Degree(y)
    decreases y
  {
    DegreeUnfold(x);
    DegreeUnfold(y);
    if x == 0 {
      XorZero(y);
    } else {
      var z := Xor(x / 2, y / 2);
      XorUnfold(x, y);
      XorDegreeLower(x / 2, y / 2);
      DegreeUnfold(x / 2);
      DegreeUnfold(z);
      DegreeUnfold(Xor(x, y));
    }
  }

  /** Adding two polynomials of the same degree cancels the leading term. */
  lemma {:induction false} XorDegreeEqual(x: nat, y: nat)
    requires Degree(x) == Degree(y) >= 0
    ensures Degree(Xor(x, y)) < Degree(y)
    decreases y
  {
    DegreeUnfold(x);
    DegreeUnfold(y);
    XorUnfold(x, y);
    DegreeUnfold(Xor(x, y));
    if y > 1 {
      DegreeUnfold(x / 2);
      DegreeUnfold(y / 2);
      XorDegreeEqual(x / 2, y / 2);
    } else {
      DegreeUnfold(x / 2);
      XorSelf(1);
    }
  }

  // ---------------------------------------------------------------------------------------------
  // Carry-less multiplication

  lemma {:induction false} ClmulZeroLeft(b: nat)
    ensures Clmul(0, b) == 0
    decreases b
  {
    if b != 0 {
      ClmulZeroLeft(b / 2);
      XorZero(0);
    }
  }

  lemma ClmulOneRight(a: nat)
    ensures Clmul(a, 1) == a
  {
    XorZero(a);
  }

  lemma {:induction false} ClmulDoubleLeft(a: nat, b: nat)
    ensures Clmul(2 * a, b) == 2 * Clmul(a, b)
    decreases b
  {
    if b != 0 {
      ClmulDoubleLeft(2 * a, b / 2);
      XorDouble(if b % 2 == 1 then a else 0, Clmul(2 * a, b / 2));
    }
  }

  lemma ClmulDoubleRight(a: nat, b: nat)
    ensures Clmul(a, 2 * b) == 2 * Clmul(a, b)
  {
    if b != 0 {
      XorZero(Clmul(2 * a, b));
      ClmulDoubleLeft(a, b);
    }
  }

  lemma {:induction false} ClmulXorLeft(a: nat, c: nat, b: nat)
    ensures Clmul(Xor(a, c), b) == Xor(Clmul(a, b), Clmul(c, b))
    decreases b
  {
    if b == 0 {
      XorZero(0);
    } else {
      ClmulXorLeft(2 * a, 2 * c, b / 2);
      XorDouble(a, c);
      if b % 2 == 1 {
        XorSwap4(a, c, Clmul(2 * a, b / 2), Clmul(2 * c, b / 2));
      } else {
        XorZero(0);
        XorZero(Clmul(Xor(2 * a, 2 * c), b / 2));
        XorZero(Clmul(2 * a, b / 2));
        XorZero(Clmul(2 * c, b / 2));
      }
    }
  }

  lemma {:induction false} ClmulComm(a: nat, b: nat)
    ensures Clmul(a, b) == Clmul(b, a)
    decreases a
  {
    if a == 0 {
      ClmulZeroLeft(b);
    } else {
      var a', a0 := a / 2, a % 2;
      XorLowBit(a', a0);
      assert a == Xor(2 * a', a0);
      ClmulXorLeft(2 * a', a0, b);
      ClmulDoubleLeft(a', b);
      ClmulComm(a', b);
      var c0 := Clmul(a0, b);
      if a0 == 0 {
        ClmulZeroLeft(b);
      } else {
        assert Clmul(1, b) == Clmul(b, 1) by {
          ClmulOneRight(b);
          ClmulOneLeft(b);
        }
        ClmulOneRight(b);
      }
      assert c0 == (if a % 2 == 1 then b else 0);
      ClmulDoubleLeft(b, a');
      XorComm(2 * Clmul(b, a'), c0);
    }
  }

  lemma {:induction false} ClmulOneLeft(b: nat)
    ensures Clmul(1, b) == b
    decreases b
  {
    if b != 0 {
      ClmulDoubleLeft(1, b / 2);
      ClmulOneLeft(b / 2);
      XorLowBit(b / 2, b % 2);
      XorComm(b % 2, 2 * (b / 2));
      if b % 2 == 0 {
        XorZero(2 * (b / 2));
      }
    }
  }

  lemma ClmulXorRight(a: nat, b: nat, c: nat)
    ensures Clmul(a, Xor(b, c)) == Xor(Clmul(a, b), Clmul(a, c))
  {
    ClmulComm(a, Xor(b, c));
    ClmulXorLeft(b, c, a);
    ClmulComm(b, a);
    ClmulComm(c, a);
  }

  lemma ClmulZeroRight(a: nat)
    ensures Clmul(a, 0) == 0
  {
  }

  lemma {:induction false} ClmulShiftRight(a: nat, b: nat, j: nat)
    ensures Clmul(a, Shift(b, j)) == Shift(Clmul(a, b), j)
    decreases j
  {
    if j > 0 {
      ClmulShiftRight(a, b, j - 1);
      ClmulDoubleRight(a, Shift(b, j - 1));
    }
  }

  lemma ClmulShiftLeft(a: nat, b: nat, j: nat)
    ensures Clmul(Shift(a, j), b) == Shift(Clmul(a, b), j)
  {
    ClmulComm(Shift(a, j), b);
    ClmulShiftRight(b, a, j);
    ClmulComm(b, a);
  }

  /** Multiplying by the monomial x^j is shifting by j. */
  lemma {:induction false} ClmulPow2(a: nat, j: nat)
    ensures Clmul(a, Pow2(j)) == Shift(a, j)
    decreases j
  {
    if j == 0 {
      ClmulOneRight(a);
    } else {
      ClmulPow2(a, j - 1);
      ClmulDoubleRight(a, Pow2(j - 1));
    }
  }

  lemma {:induction false} ClmulAssoc(a: nat, b: nat, c: nat)
    ensures Clmul(Clmul(a, b), c) == Clmul(a, Clmul(b, c))
    decreases c
  {
    if c == 0 {
    } else {
      var c' := c / 2;
      ClmulAssoc(a, b, c');
      // left side
      ClmulDoubleLeft(Clmul(a, b), c');
      // right side
      ClmulDoubleLeft(b, c');
      ClmulXorRight(a, if c % 2 == 1 then b else 0, 2 * Clmul(b, c'));
      ClmulDoubleRight(a, Clmul(b, c'));
      if c % 2 == 0 {
        ClmulZeroRight(a);
      }
    }
  }

  /** The degree of a product of nonzero polynomials is the sum of the degrees. */
  lemma {:induction false} ClmulDegree(a: nat, b: nat)
    requires a > 0 && b > 0
    ensures Degree(Clmul(a, b)) == Degree(a) + Degree(b)
    decreases b
  {
    if b == 1 {
      ClmulOneRight(a);
    } else {
      ClmulDegree(2 * a, b / 2);
      assert Degree(2 * a) == 1 + Degree(a);
      var low := if b % 2 == 1 then a else 0;
      assert Degree(low) < Degree(Clmul(2 * a, b / 2)) by {
        DegreeBounds(a);
        DegreeBounds(b / 2);
      }
      XorDegreeLower(low, Clmul(2 * a, b / 2));
    }
  }

  /** A product of two nonzero polynomials is nonzero. */
  lemma ClmulNonzero(a: nat, b: nat)
    requires a > 0 && b > 0
    ensures Clmul(a, b) > 0
  {
    ClmulDegree(a, b);
    DegreeBounds(a);
    DegreeBounds(b);
  }
}
