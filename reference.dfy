/**
  The reference binary field (Galois/reference.swift).

  An element is an unsigned register of `w` bits holding a polynomial of degree below
  d = Dim(poly). Multiplication is shift-and-add with one reduction per shift, the reciprocal is
  the binary extended Euclidean algorithm, and division multiplies by the reciprocal. All three
  are proved against the reduction-based product `MulMod`.
*/
module Reference {
  import opened Bits
  import opened GF2Poly

  /** Every natural below 2^n has degree below n, and no other does. */
  lemma BelowPow2(n: nat)
    ensures forall a: nat :: a < Pow2(n) <==> Degree(a) < n
  {
    forall a: nat
      ensures a < Pow2(n) <==> Degree(a) < n
    {
      DegreeBelow(a, n);
    }
  }

  /** The number of field elements: one per polynomial of degree below that of poly. */
  function Count(poly: nat): (n: nat)
    requires poly >= 2
    ensures forall a: nat :: a < n <==> Degree(a) < Dim(poly)
  {
    BelowPow2(Dim(poly));
    Pow2(Dim(poly))
  }

  /** Below the top bit, the register doubles a without loss. */
  lemma RegisterDouble(poly: nat, w: nat, a: nat)
    requires poly >= 2 && Dim(poly) <= w && a < Pow2(Dim(poly) - 1)
    ensures Shl(a, 1, w) == MulX(poly, a)
  {
    assert Shift(a, 1) == 2 * a;
    Pow2Monotone(Dim(poly), w);
    ShlFits(a, 1, w);
  }

  /** With the top bit set, the bit shifted out is cancelled by the leading term of poly. */
  lemma RegisterReduce(poly: nat, w: nat, a: nat)
    requires poly >= 2 && Dim(poly) <= w && Pow2(Dim(poly) - 1) <= a < Pow2(Dim(poly))
    ensures Xor(Shl(a, 1, w), Low(poly, w)) == MulX(poly, a)
  {
    var m := Xor(2 * a, poly);
    assert Shift(a, 1) == 2 * a;
    MulXBound(poly, a);
    Pow2Monotone(Dim(poly), w);
    XorLow(2 * a, poly, w);
    LowSmall(m, w);
  }

  /**
    One doubling step on a w-bit register, as the multiplication loop performs it: shift left by
    one (the bit shifted out is lost) and add the truncated polynomial when the top bit was set.
    Whenever the polynomial fits the register this is multiplication by x modulo poly.
  */
  lemma RegisterMulX(poly: nat, w: nat, a: nat)
    requires poly >= 2 && Dim(poly) <= w && a < Pow2(Dim(poly))
    ensures (if Shr(a, Dim(poly) - 1) == 1 then Xor(Shl(a, 1, w), Low(poly, w)) else Shl(a, 1, w))
      == MulX(poly, a)
    ensures MulX(poly, a) < Pow2(Dim(poly))
  {
    ShrTop(a, Dim(poly) - 1);
    MulXBound(poly, a);
    if a < Pow2(Dim(poly) - 1) {
      RegisterDouble(poly, w, a);
    } else {
      RegisterReduce(poly, w, a);
    }
  }

  /** Shift-and-add multiplication (reference.swift:15-34). */
  method Mul(poly: nat, w: nat, left: nat, right: nat) returns (prod: nat)
    requires poly >= 2 && Dim(poly) <= w
    requires left < Pow2(Dim(poly)) && right < Pow2(Dim(poly))
    ensures prod == MulMod(poly, left, right)
  {
    var d := Dim(poly);
    var a: nat, b: nat, t: nat := left, right, 0;
    var p := Low(poly, w);
    if a < b {
      a, b := b, a;
      MulModComm(poly, left, right);
    }
    XorZero(MulMod(poly, a, b));
    while a != 0 && b != 0
      invariant a < Pow2(d) && b < Pow2(d) && t < Pow2(d)
      invariant Xor(t, MulMod(poly, a, b)) == MulMod(poly, left, right)
      decreases b
    {
      MulModStep(poly, a, b);
      XorAssoc(t, if b % 2 == 1 then a else 0, MulMod(poly, MulX(poly, a), b / 2));
      if b % 2 == 1 {
        XorBound(t, a, d);
        t := Xor(t, a);
      } else {
        XorZero(t);
      }
      RegisterMulX(poly, w, a);
      if Shr(a, d - 1) == 1 {
        a := Shl(a, 1, w);
        a := Xor(a, p);
      } else {
        a := Shl(a, 1, w);
      }
      b := b / 2;
    }
    MulModZero(poly, a);
    MulModZero(poly, b);
    XorZero(t);
    prod := t;
  }

  /**
    The state of the extended Euclidean algorithm on the pair (poly, value): r and newr are the
    two remainders, t and newt their cofactors (r == t * value and newr == newt * value modulo
    poly). The determinant of the pair is poly, and the degrees of the cofactors are tied to the
    degrees of the remainders.
  */
  ghost predicate EuclidState(poly: nat, value: nat, r: nat, t: nat, newr: nat, newt: nat)
    requires poly >= 2
  {
    var d := Dim(poly);
    2 <= r < Pow2(d) && 1 <= newr < Pow2(d) && t >= 1 && newt >= 1
    && Degree(r) >= 1 && Degree(newr) >= 0
    && Degree(newt) + Degree(r) == d && Degree(t) + Degree(newr) < d
    && Xor(Clmul(r, newt), Clmul(newr, t)) == poly
    && MulMod(poly, t, value) == r && MulMod(poly, newt, value) == newr
  }

  /** With an irreducible polynomial, the remainder paired with the pivot never vanishes. */
  lemma NonzeroRemainder(poly: nat, r: nat, t: nat, newr: nat, newt: nat)
    requires poly >= 2 && Irreducible(poly)
    requires 2 <= r < Pow2(Dim(poly)) && Degree(newt) + Degree(r) == Dim(poly)
    requires Xor(Clmul(r, newt), Clmul(newr, t)) == poly
    ensures newr != 0
  {
    if newr == 0 {
      ClmulZeroLeft(t);
      XorZero(Clmul(r, newt));
      DegreeBelow(r, Dim(poly));
      DegreeBounds(poly);
      assert Divides(r, poly);
    }
  }

  /** The determinant of the pair is unchanged when a shifted pivot row is added to the other row. */
  lemma DeterminantStep(r: nat, t: nat, newr: nat, newt: nat, j: nat)
    ensures Xor(Clmul(r, Xor(newt, Shift(t, j))), Clmul(Xor(newr, Shift(r, j)), t))
      == Xor(Clmul(r, newt), Clmul(newr, t))
  {
    var x := Shift(Clmul(r, t), j);
    ClmulXorRight(r, newt, Shift(t, j));
    ClmulXorLeft(newr, Shift(r, j), t);
    ClmulShiftRight(r, t, j);
    ClmulShiftLeft(r, t, j);
    XorSwap4(Clmul(r, newt), x, Clmul(newr, t), x);
    XorSelf(x);
    XorZero(Xor(Clmul(r, newt), Clmul(newr, t)));
  }

  /** The cofactor relation is kept when a shifted pivot is added to the other row. */
  lemma CofactorStep(poly: nat, value: nat, r: nat, t: nat, newr: nat, newt: nat, j: nat)
    requires poly >= 2 && Shift(r, j) < Pow2(Dim(poly))
    requires MulMod(poly, t, value) == r && MulMod(poly, newt, value) == newr
    ensures MulMod(poly, Xor(newt, Shift(t, j)), value) == Xor(newr, Shift(r, j))
  {
    ClmulXorLeft(newt, Shift(t, j), value);
    PolyModXor(poly, Clmul(newt, value), Clmul(Shift(t, j), value));
    ClmulShiftLeft(t, value, j);
    ClmulPow2(Clmul(t, value), j);
    PolyModCongruent(poly, Clmul(t, value), Pow2(j));
    ClmulPow2(r, j);
    PolyModSmall(poly, Shift(r, j));
  }

  /**
    The register arithmetic of one loop step: newr has degree j above that of the pivot r, so the
    shifted pivot row fits the register and adding it lowers the degree of newr.
  */
  lemma ShiftStep(poly: nat, w: nat, r: nat, t: nat, newr: nat, j: nat)
    requires poly >= 2 && Dim(poly) <= w
    requires r >= 1 && t >= 1 && newr < Pow2(Dim(poly))
    requires Degree(newr) == Degree(r) + j && Degree(t) + j < Dim(poly)
    ensures Shl(r, j, w) == Shift(r, j) && Shl(t, j, w) == Shift(t, j)
    ensures Degree(Shift(t, j)) == Degree(t) + j
    ensures Degree(Xor(newr, Shift(r, j))) < Degree(newr)
    ensures Shift(r, j) < Pow2(Dim(poly)) && Xor(newr, Shift(r, j)) < Pow2(Dim(poly))
  {
    var d := Dim(poly);
    DegreeUnfold(r);
    Pow2Monotone(d, w);
    DegreeShift(r, j);
    DegreeShift(t, j);
    DegreeBelow(newr, d);
    DegreeBelow(Shift(r, j), d);
    DegreeBelow(Shift(t, j), d);
    ShlFits(r, j, w);
    ShlFits(t, j, w);
    XorDegreeEqual(newr, Shift(r, j));
    DegreeBelow(Xor(newr, Shift(r, j)), d);
  }

  /**
    The first reduction of poly by the value shifted up to the degree of poly, as the w-bit
    registers compute it: since poly and the shifted value share their leading term, nothing is
    lost to truncation.
  */
  lemma InitRegisters(poly: nat, w: nat, value: nat, j: nat)
    requires poly >= 2 && Dim(poly) <= w
    requires 2 <= value < Pow2(Dim(poly)) && j == Dim(poly) - Degree(value)
    ensures 1 <= j < Dim(poly)
    ensures Xor(Low(poly, w), Shl(value, j, w)) == Xor(poly, Shift(value, j))
    ensures Xor(poly, Shift(value, j)) < Pow2(Dim(poly))
    ensures Xor(0, Shl(1, j, w)) == Pow2(j)
  {
    var d := Dim(poly);
    var s := Shift(value, j);
    DegreeUnfold(value);
    DegreeUnfold(value / 2);
    DegreeBelow(value, d);
    Pow2Monotone(d, w);
    DegreeShift(value, j);
    XorDegreeEqual(poly, s);
    DegreeBelow(Xor(poly, s), d);
    XorLow(poly, s, w);
    LowSmall(Xor(poly, s), w);
    ClmulPow2(1, j);
    ClmulOneLeft(Pow2(j));
    Pow2Monotone(j + 1, d);
    ShlFits(1, j, w);
    XorZero(Pow2(j));
  }

  lemma InitDeterminant(poly: nat, value: nat, j: nat)
    ensures Xor(Clmul(value, Pow2(j)), Clmul(Xor(poly, Shift(value, j)), 1)) == poly
  {
    var s := Shift(value, j);
    var newr := Xor(poly, s);
    ClmulPow2(value, j);
    ClmulOneRight(newr);
    XorComm(s, newr);
    XorAssoc(poly, s, s);
    XorSelf(s);
    XorZero(poly);
  }

  lemma InitCofactor(poly: nat, value: nat, j: nat)
    requires poly >= 2 && Xor(poly, Shift(value, j)) < Pow2(Dim(poly))
    ensures MulMod(poly, Pow2(j), value) == Xor(poly, Shift(value, j))
  {
    var s := Shift(value, j);
    ClmulPow2(value, j);
    ClmulComm(Pow2(j), value);
    PolyModXor(poly, poly, s);
    PolyModSelf(poly);
    XorZero(PolyMod(poly, s));
    PolyModSmall(poly, Xor(poly, s));
  }

  /** The Euclidean state after the first reduction. */
  lemma EuclidInit(poly: nat, value: nat, j: nat)
    requires poly >= 2 && Irreducible(poly)
    requires 2 <= value < Pow2(Dim(poly)) && j == Dim(poly) - Degree(value)
    requires Xor(poly, Shift(value, j)) < Pow2(Dim(poly))
    ensures EuclidState(poly, value, value, 1, Xor(poly, Shift(value, j)), Pow2(j))
  {
    var s := Shift(value, j);
    var newr := Xor(poly, s);
    DegreeUnfold(value);
    DegreeUnfold(value / 2);
    DegreeOf(Pow2(j), j);
    InitDeterminant(poly, value, j);
    InitCofactor(poly, value, j);
    MulModOne(poly, value);
    DegreeBelow(value, Dim(poly));
    NonzeroRemainder(poly, value, 1, newr, Pow2(j));
    DegreeUnfold(newr);
    DegreeBelow(newr, Dim(poly));
  }

  /** The loop step when newr has no smaller degree than the pivot r. */
  lemma EuclidReduce(poly: nat, w: nat, value: nat, r: nat, t: nat, newr: nat, newt: nat, j: nat)
    requires poly >= 2 && Dim(poly) <= w && Irreducible(poly)
    requires EuclidState(poly, value, r, t, newr, newt)
    requires j == Degree(newr) - Degree(r)
    ensures Shl(r, j, w) == Shift(r, j) && Shl(t, j, w) == Shift(t, j)
    ensures EuclidState(poly, value, r, t, Xor(newr, Shift(r, j)), Xor(newt, Shift(t, j)))
    ensures Degree(Xor(newr, Shift(r, j))) < Degree(newr)
  {
    var newr', newt' := Xor(newr, Shift(r, j)), Xor(newt, Shift(t, j));
    ShiftStep(poly, w, r, t, newr, j);
    CofactorStep(poly, value, r, t, newr, newt, j);
    DeterminantStep(r, t, newr, newt, j);
    XorDegreeLower(Shift(t, j), newt);
    XorComm(Shift(t, j), newt);
    DegreeBelow(r, Dim(poly));
    NonzeroRemainder(poly, r, t, newr', newt');
    DegreeUnfold(newr');
    DegreeUnfold(newt');
  }

  /** The loop step when newr has the smaller degree: the rows swap roles first. */
  lemma EuclidSwap(poly: nat, w: nat, value: nat, r: nat, t: nat, newr: nat, newt: nat, j: nat)
    requires poly >= 2 && Dim(poly) <= w && Irreducible(poly)
    requires EuclidState(poly, value, r, t, newr, newt)
    requires newr != 1 && j == Degree(r) - Degree(newr)
    ensures Shl(newr, j, w) == Shift(newr, j) && Shl(newt, j, w) == Shift(newt, j)
    ensures EuclidState(poly, value, newr, newt, Xor(r, Shift(newr, j)), Xor(t, Shift(newt, j)))
    ensures Degree(Xor(r, Shift(newr, j))) < Degree(r)
  {
    var r', t' := Xor(r, Shift(newr, j)), Xor(t, Shift(newt, j));
    DegreeUnfold(newr);
    DegreeUnfold(newr / 2);
    XorComm(Clmul(r, newt), Clmul(newr, t));
    ShiftStep(poly, w, newr, newt, r, j);
    CofactorStep(poly, value, newr, newt, r, t, j);
    DeterminantStep(newr, newt, r, t, j);
    XorDegreeLower(t, Shift(newt, j));
    DegreeBelow(newr, Dim(poly));
    NonzeroRemainder(poly, newr, newt, r', t');
    DegreeUnfold(r');
    DegreeUnfold(t');
  }

  /** The reciprocal by the binary extended Euclidean algorithm (reference.swift:36-61). */
  method Reciprocal(poly: nat, w: nat, value: nat) returns (inv: nat)
    requires poly >= 2 && Dim(poly) <= w && Irreducible(poly)
    requires 0 < value < Pow2(Dim(poly))
    ensures inv < Pow2(Dim(poly))
    ensures MulMod(poly, value, inv) == 1
  {
    if value == 1 {
      MulModOne(poly, 1);
      return value;
    }
    var d := Dim(poly);
    var newr, r := Low(poly, w), value;
    var newt, t := 0, 1;
    var k := Degree(r);
    DegreeBelow(value, d);
    var j := d - k;
    InitRegisters(poly, w, value, j);
    EuclidInit(poly, value, j);
    newr := Xor(newr, Shl(r, j, w));
    newt := Xor(newt, Shl(t, j, w));
    while newr != 1
      invariant EuclidState(poly, value, r, t, newr, newt) && k == Degree(r)
      decreases Degree(newr) + k
    {
      var l := Degree(newr);
      var j := l - k;
      if j < 0 {
        j := -j;
        k := l;
        EuclidSwap(poly, w, value, r, t, newr, newt, j);
        newr, r := r, newr;
        newt, t := t, newt;
      } else {
        EuclidReduce(poly, w, value, r, t, newr, newt, j);
      }
      newr := Xor(newr, Shl(r, j, w));
      newt := Xor(newt, Shl(t, j, w));
    }
    MulModComm(poly, newt, value);
    DegreeBelow(newt, d);
    inv := newt;
  }

  /** Division multiplies by the reciprocal (reference.swift:63-65). */
  method Div(poly: nat, w: nat, left: nat, right: nat) returns (q: nat)
    requires poly >= 2 && Dim(poly) <= w && Irreducible(poly)
    requires left < Pow2(Dim(poly)) && 0 < right < Pow2(Dim(poly))
    ensures q < Pow2(Dim(poly))
    ensures MulMod(poly, q, right) == left
  {
    var inv := Reciprocal(poly, w, right);
    q := Mul(poly, w, left, inv);
    MulModBound(poly, left, inv);
    MulModAssoc(poly, left, inv, right);
    MulModComm(poly, inv, right);
    MulModOne(poly, left);
  }
}
