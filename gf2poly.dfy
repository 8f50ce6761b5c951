/**
  Arithmetic modulo a binary polynomial.

  `poly` is the field polynomial with degree d = `Dim(poly)`, and the field elements are the
  polynomials of degree below d, i.e. the naturals below 2^d. `MulX` is multiplication by x
  followed by one reduction step. `PolyMod` reduces any polynomial modulo `poly` by Horner's rule,
  and `MulMod` is the reference product: carry-less multiplication followed by reduction. The
  field implementations are proved against `MulMod`.
*/
module GF2Poly {
  import opened Bits

  /** The degree of the field polynomial, i.e. the number of bits of an element. */
  function Dim(poly: nat): (d: nat)
    requires poly >= 2
    ensures d == Degree(poly) && d >= 1
  {
    DegreeUnfold(poly);
    DegreeUnfold(poly / 2);
    Degree(poly)
  }

  /** Multiplication by x modulo poly. */
  function MulX(poly: nat, a: nat): nat
    requires poly >= 2
  {
    if a < Pow2(Dim(poly) - 1) then 2 * a else Xor(2 * a, poly)
  }

  /** The remainder of x modulo poly. */
  function PolyMod(poly: nat, x: nat): (r: nat)
    requires poly >= 2
    ensures r < Pow2(Dim(poly))
    decreases x
  {
    if x == 0 then 0
    else
      var h := PolyMod(poly, x / 2);
      MulXBound(poly, h);
      Pow2Monotone(1, Dim(poly));
      XorBound(MulX(poly, h), x % 2, Dim(poly));
      Xor(MulX(poly, h), x % 2)
  }

  /** The product of a and b in GF(2)[x]/(poly). */
  function MulMod(poly: nat, a: nat, b: nat): nat
    requires poly >= 2
  {
    PolyMod(poly, Clmul(a, b))
  }

  /** a divides p in GF(2)[x]. */
  ghost predicate Divides(a: nat, p: nat)
  {
    exists b: nat :: Clmul(a, b) == p
  }

  /** poly has no divisor other than 1 and itself. */
  ghost predicate Irreducible(poly: nat)
  {
    forall a: nat :: 1 < a < poly ==> !Divides(a, poly)
  }

  // ---------------------------------------------------------------------------------------------
  // Multiplication by x

  /** An element has its top bit (the coefficient of x^(d-1)) set exactly when it has degree d-1. */
  lemma TopBit(poly: nat, a: nat)
    requires poly >= 2 && a < Pow2(Dim(poly))
    ensures a >= Pow2(Dim(poly) - 1) <==> Degree(a) == Dim(poly) - 1
  {
    var d := Dim(poly);
    DegreeBelow(a, d);
    DegreeBelow(a, d - 1);
  }

  /** The top bit of a ^ b is the exclusive or of the top bits. */
  lemma XorTopBit(poly: nat, a: nat, b: nat)
    requires poly >= 2 && a < Pow2(Dim(poly)) && b < Pow2(Dim(poly))
    ensures Xor(a, b) < Pow2(Dim(poly))
    ensures Xor(a, b) >= Pow2(Dim(poly) - 1) <==> (a >= Pow2(Dim(poly) - 1)) != (b >= Pow2(Dim(poly) - 1))
  {
    var d := Dim(poly);
    var P := Pow2(d - 1);
    XorBound(a, b, d);
    TopBit(poly, a);
    TopBit(poly, b);
    TopBit(poly, Xor(a, b));
    if a >= P && b >= P {
      XorDegreeEqual(a, b);
    } else if a >= P {
      DegreeBelow(b, d - 1);
      XorDegreeLower(b, a);
      XorComm(a, b);
    } else if b >= P {
      DegreeBelow(a, d - 1);
      XorDegreeLower(a, b);
    } else {
      XorBound(a, b, d - 1);
    }
  }

  lemma MulXBound(poly: nat, a: nat)
    requires poly >= 2
    ensures a < Pow2(Dim(poly)) ==> MulX(poly, a) < Pow2(Dim(poly))
  {
    var d := Dim(poly);
    if Pow2(d - 1) <= a < Pow2(d) {
      DegreeOf(a, d - 1);
      DegreeShift(a, 1);
      XorDegreeEqual(2 * a, poly);
      DegreeBelow(Xor(2 * a, poly), d);
    }
  }

  /** Multiplication by x distributes over addition. */
  lemma MulXXor(poly: nat, a: nat, b: nat)
    requires poly >= 2 && a < Pow2(Dim(poly)) && b < Pow2(Dim(poly))
    ensures MulX(poly, Xor(a, b)) == Xor(MulX(poly, a), MulX(poly, b))
  {
    var P := Pow2(Dim(poly) - 1);
    XorTopBit(poly, a, b);
    XorDouble(a, b);
    if a >= P && b >= P {
      XorSwap4(2 * a, poly, 2 * b, poly);
      XorSelf(poly);
      XorZero(Xor(2 * a, 2 * b));
    } else if a >= P {
      XorAssoc(2 * a, 2 * b, poly);
      XorComm(2 * b, poly);
      XorAssoc(2 * a, poly, 2 * b);
    } else if b >= P {
      XorAssoc(2 * a, 2 * b, poly);
    }
  }

  // ---------------------------------------------------------------------------------------------
  // Reduction

  lemma PolyModUnfold(poly: nat, x: nat)
    requires poly >= 2
    ensures PolyMod(poly, x) == Xor(MulX(poly, PolyMod(poly, x / 2)), x % 2)
  {
    if x == 0 {
      XorZero(0);
    }
  }

  /** Reduction leaves the field elements unchanged. */
  lemma {:induction false} PolyModSmall(poly: nat, x: nat)
    requires poly >= 2 && x < Pow2(Dim(poly))
    ensures PolyMod(poly, x) == x
    decreases x
  {
    if x > 0 {
      PolyModSmall(poly, x / 2);
      XorLowBit(x / 2, x % 2);
    }
  }

  /** Reduction is linear over GF(2). */
  lemma {:induction false} PolyModXor(poly: nat, x: nat, y: nat)
    requires poly >= 2
    ensures PolyMod(poly, Xor(x, y)) == Xor(PolyMod(poly, x), PolyMod(poly, y))
    decreases x + y
  {
    if x == 0 && y == 0 {
      XorZero(0);
    } else {
      var z := Xor(x, y);
      var hx, hy := PolyMod(poly, x / 2), PolyMod(poly, y / 2);
      XorUnfold(x, y);
      PolyModUnfold(poly, z);
      assert PolyMod(poly, z) == Xor(MulX(poly, PolyMod(poly, Xor(x / 2, y / 2))), Xor(x % 2, y % 2)) by {
        XorParity(x, y);
      }
      PolyModXor(poly, x / 2, y / 2);
      MulXXor(poly, hx, hy);
      XorSwap4(MulX(poly, hx), MulX(poly, hy), x % 2, y % 2);
      PolyModUnfold(poly, x);
      PolyModUnfold(poly, y);
    }
  }

  lemma PolyModDouble(poly: nat, x: nat)
    requires poly >= 2
    ensures PolyMod(poly, 2 * x) == MulX(poly, PolyMod(poly, x))
  {
    PolyModUnfold(poly, 2 * x);
    XorZero(MulX(poly, PolyMod(poly, x)));
  }

  /** The field polynomial itself reduces to zero. */
  lemma PolyModSelf(poly: nat)
    requires poly >= 2
    ensures PolyMod(poly, poly) == 0
  {
    var d := Dim(poly);
    var h, b := poly / 2, poly % 2;
    DegreeBounds(poly);
    PolyModUnfold(poly, poly);
    PolyModSmall(poly, h);
    XorLowBit(h, b);
    XorAssoc(2 * h, 2 * h, b);
    XorSelf(2 * h);
    XorZero(b);
    XorSelf(b);
  }

  /** Every multiple of the field polynomial reduces to zero. */
  lemma {:induction false} PolyModMultiple(poly: nat, k: nat)
    requires poly >= 2
    ensures PolyMod(poly, Clmul(poly, k)) == 0
    decreases k
  {
    if k > 0 {
      PolyModMultiple(poly, k / 2);
      ClmulDoubleLeft(poly, k / 2);
      PolyModXor(poly, if k % 2 == 1 then poly else 0, Clmul(2 * poly, k / 2));
      PolyModDouble(poly, Clmul(poly, k / 2));
      PolyModSelf(poly);
      XorZero(0);
    }
  }

  lemma PolyModMulX(poly: nat, u: nat, y: nat)
    requires poly >= 2 && u < Pow2(Dim(poly))
    ensures PolyMod(poly, Clmul(MulX(poly, u), y)) == MulX(poly, PolyMod(poly, Clmul(u, y)))
  {
    ClmulDoubleLeft(u, y);
    PolyModDouble(poly, Clmul(u, y));
    if u >= Pow2(Dim(poly) - 1) {
      ClmulXorLeft(2 * u, poly, y);
      PolyModXor(poly, Clmul(2 * u, y), Clmul(poly, y));
      PolyModMultiple(poly, y);
      XorZero(MulX(poly, PolyMod(poly, Clmul(u, y))));
    }
  }

  /** Reducing a factor first does not change the reduced product. */
  lemma {:induction false} PolyModCongruent(poly: nat, x: nat, y: nat)
    requires poly >= 2
    ensures PolyMod(poly, Clmul(x, y)) == PolyMod(poly, Clmul(PolyMod(poly, x), y))
    decreases x
  {
    if x == 0 {
      ClmulZeroLeft(y);
    } else {
      var h, b := x / 2, x % 2;
      var u := PolyMod(poly, h);
      PolyModCongruent(poly, h, y);
      // left side: x = 2h ^ b
      XorLowBit(h, b);
      ClmulXorLeft(2 * h, b, y);
      ClmulDoubleLeft(h, y);
      PolyModXor(poly, Clmul(2 * h, y), Clmul(b, y));
      PolyModDouble(poly, Clmul(h, y));
      // right side: PolyMod(x) = MulX(u) ^ b
      PolyModUnfold(poly, x);
      ClmulXorLeft(MulX(poly, u), b, y);
      PolyModXor(poly, Clmul(MulX(poly, u), y), Clmul(b, y));
      PolyModMulX(poly, u, y);
    }
  }

  // ---------------------------------------------------------------------------------------------
  // The reference product

  lemma MulModBound(poly: nat, a: nat, b: nat)
    requires poly >= 2
    ensures MulMod(poly, a, b) < Pow2(Dim(poly))
  {
  }

  lemma MulModComm(poly: nat, a: nat, b: nat)
    requires poly >= 2
    ensures MulMod(poly, a, b) == MulMod(poly, b, a)
  {
    ClmulComm(a, b);
  }

  lemma MulModOne(poly: nat, a: nat)
    requires poly >= 2 && a < Pow2(Dim(poly))
    ensures MulMod(poly, a, 1) == a && MulMod(poly, 1, a) == a
  {
    ClmulOneRight(a);
    ClmulOneLeft(a);
    PolyModSmall(poly, a);
  }

  lemma MulModZero(poly: nat, a: nat)
    ensures MulMod(poly, a, 0) == 0 && MulMod(poly, 0, a) == 0
    requires poly >= 2
  {
    ClmulZeroLeft(a);
  }

  lemma MulModAssoc(poly: nat, a: nat, b: nat, c: nat)
    requires poly >= 2
    ensures MulMod(poly, MulMod(poly, a, b), c) == MulMod(poly, a, MulMod(poly, b, c))
  {
    PolyModCongruent(poly, Clmul(a, b), c);
    ClmulAssoc(a, b, c);
    ClmulComm(a, Clmul(b, c));
    PolyModCongruent(poly, Clmul(b, c), a);
    ClmulComm(PolyMod(poly, Clmul(b, c)), a);
  }

  lemma MulModXor(poly: nat, a: nat, b: nat, c: nat)
    requires poly >= 2
    ensures MulMod(poly, a, Xor(b, c)) == Xor(MulMod(poly, a, b), MulMod(poly, a, c))
  {
    ClmulXorRight(a, b, c);
    PolyModXor(poly, Clmul(a, b), Clmul(a, c));
  }

  /** An element has at most one reciprocal. */
  lemma InverseUnique(poly: nat, a: nat, u: nat, v: nat)
    requires poly >= 2 && u < Pow2(Dim(poly)) && v < Pow2(Dim(poly))
    requires MulMod(poly, a, u) == 1 && MulMod(poly, a, v) == 1
    ensures u == v
  {
    MulModOne(poly, u);
    MulModOne(poly, v);
    MulModAssoc(poly, u, a, v);
    MulModComm(poly, u, a);
  }

  /** Division by an invertible b has at most one result. */
  lemma QuotientUnique(poly: nat, b: nat, v: nat, q1: nat, q2: nat)
    requires poly >= 2 && q1 < Pow2(Dim(poly)) && q2 < Pow2(Dim(poly)) && MulMod(poly, b, v) == 1
    requires MulMod(poly, q1, b) == MulMod(poly, q2, b)
    ensures q1 == q2
  {
    MulModOne(poly, q1);
    MulModOne(poly, q2);
    MulModAssoc(poly, q1, b, v);
    MulModAssoc(poly, q2, b, v);
  }

  /** One step of shift-and-add multiplication: a * b == (b0 ? a : 0) ^ (x a) * (b >> 1). */
  lemma MulModStep(poly: nat, a: nat, b: nat)
    requires poly >= 2 && a < Pow2(Dim(poly))
    ensures MulMod(poly, a, b) == Xor(if b % 2 == 1 then a else 0, MulMod(poly, MulX(poly, a), b / 2))
  {
    var low := if b % 2 == 1 then a else 0;
    if b == 0 {
      ClmulZeroRight(MulX(poly, a));
      XorZero(0);
    } else {
      PolyModXor(poly, low, Clmul(2 * a, b / 2));
      PolyModSmall(poly, low);
      PolyModCongruent(poly, 2 * a, b / 2);
      PolyModDouble(poly, a);
      PolyModSmall(poly, a);
    }
  }
}
