/**
  Products of field elements over a range of indices, leaving out at most one index.

  Every product the Cauchy inverse and the Lagrange basis form has this shape: prod_xy, prod_x,
  prod_y, the numerator and the denominator of a basis polynomial. Stating the general facts once
  (splitting off a factor, multiplying two products, negating every factor) lets the round trip of
  the Cauchy coder compare them.
*/
module Products {
  import opened Fields

  /** The factors f(k), k < m, are elements of F. */
  ghost predicate Factors(F: Field, f: nat -> nat, m: nat)
  {
    forall k: nat :: k < m ==> f(k) < F.count
  }

  /** The product of f(k) over k < m, leaving out k == skip (nothing is left out if skip < 0). */
  function Prod(F: Field, f: nat -> nat, skip: int, m: nat): (r: nat)
    requires IsField(F) && Factors(F, f, m)
    ensures r < F.count
  {
    if m == 0 then 1
    else if m - 1 == skip then Prod(F, f, skip, m - 1)
    else F.mul(Prod(F, f, skip, m - 1), f(m - 1))
  }

  /** The number of factors of such a product. */
  function Count(skip: int, m: nat): (c: nat)
    ensures c == if 0 <= skip < m then m - 1 else m
  {
    if 0 <= skip < m then m - 1 else m
  }

  /** (0 - 1) to the power c. */
  function Sign(F: Field, c: nat): (r: nat)
    requires IsField(F)
    ensures r < F.count && r != 0
  {
    if c == 0 then 1
    else
      var s := Sign(F, c - 1);
      SubZero(F, 0, s);
      F.sub(0, s)
  }

  /** Leaving out an index outside the range changes nothing. */
  lemma {:induction false} ProdNoSkip(F: Field, f: nat -> nat, skip: int, m: nat)
    requires IsField(F) && Factors(F, f, m) && !(0 <= skip < m)
    ensures Prod(F, f, skip, m) == Prod(F, f, -1, m)
  {
    if m > 0 {
      ProdNoSkip(F, f, skip, m - 1);
    }
  }

  /** Products of factors that agree are equal. */
  lemma {:induction false} ProdExt(F: Field, f: nat -> nat, g: nat -> nat, skip: int, m: nat)
    requires IsField(F) && Factors(F, f, m) && Factors(F, g, m)
    requires forall k: nat :: k < m && k != skip ==> f(k) == g(k)
    ensures Prod(F, f, skip, m) == Prod(F, g, skip, m)
  {
    if m > 0 {
      ProdExt(F, f, g, skip, m - 1);
    }
  }

  /** The full product is factor e times the product that leaves e out. */
  lemma {:induction false} ProdSplit(F: Field, f: nat -> nat, e: nat, m: nat)
    requires IsField(F) && Factors(F, f, m) && e < m
    ensures Prod(F, f, -1, m) == F.mul(f(e), Prod(F, f, e, m))
  {
    var p := Prod(F, f, -1, m - 1);
    if m - 1 == e {
      ProdNoSkip(F, f, e, m - 1);
      MulComm(F, p, f(e));
    } else {
      ProdSplit(F, f, e, m - 1);
      MulAssoc(F, f(e), Prod(F, f, e, m - 1), f(m - 1));
    }
  }

  /** The product of pointwise products is the product of the two products. */
  lemma {:induction false} ProdMul(F: Field, f: nat -> nat, g: nat -> nat, h: nat -> nat, skip: int, m: nat)
    requires IsField(F) && Factors(F, f, m) && Factors(F, g, m) && Factors(F, h, m)
    requires forall k: nat :: k < m ==> h(k) == F.mul(f(k), g(k))
    ensures Prod(F, h, skip, m) == F.mul(Prod(F, f, skip, m), Prod(F, g, skip, m))
  {
    if m == 0 {
      MulOne(F, 1);
    } else {
      ProdMul(F, f, g, h, skip, m - 1);
      if m - 1 != skip {
        MulSwap4(F, Prod(F, f, skip, m - 1), Prod(F, g, skip, m - 1), f(m - 1), g(m - 1));
      }
    }
  }

  /** A product of nonzero factors is nonzero. */
  lemma {:induction false} ProdNonzero(F: Field, f: nat -> nat, skip: int, m: nat)
    requires IsField(F) && Factors(F, f, m)
    requires forall k: nat :: k < m && k != skip ==> f(k) != 0
    ensures Prod(F, f, skip, m) != 0
  {
    if m > 0 {
      ProdNonzero(F, f, skip, m - 1);
      if m - 1 != skip {
        MulNonzero(F, Prod(F, f, skip, m - 1), f(m - 1));
      }
    }
  }

  /** A product with a zero factor is zero. */
  lemma {:induction false} ProdZero(F: Field, f: nat -> nat, skip: int, m: nat, e: nat)
    requires IsField(F) && Factors(F, f, m)
    requires e < m && e != skip && f(e) == 0
    ensures Prod(F, f, skip, m) == 0
  {
    if m - 1 == e {
      MulZero(F, Prod(F, f, skip, m - 1));
    } else {
      ProdZero(F, f, skip, m - 1, e);
      if m - 1 != skip {
        MulZero(F, f(m - 1));
      }
    }
  }

  /** Negating every factor multiplies the product by (0 - 1) to the number of factors. */
  lemma {:induction false} ProdNeg(F: Field, f: nat -> nat, g: nat -> nat, skip: int, m: nat)
    requires IsField(F) && Factors(F, f, m) && Factors(F, g, m)
    requires forall k: nat :: k < m ==> g(k) == F.sub(0, f(k))
    ensures Prod(F, g, skip, m) == F.mul(Sign(F, Count(skip, m)), Prod(F, f, skip, m))
  {
    if m == 0 {
      MulOne(F, 1);
    } else {
      ProdNeg(F, f, g, skip, m - 1);
      ProdNegStep(F, f, g, skip, m);
    }
  }

  /** One factor more in `ProdNeg`. */
  lemma ProdNegStep(F: Field, f: nat -> nat, g: nat -> nat, skip: int, m: nat)
    requires IsField(F) && Factors(F, f, m) && Factors(F, g, m) && m > 0
    requires g(m - 1) == F.sub(0, f(m - 1))
    requires Prod(F, g, skip, m - 1) == F.mul(Sign(F, Count(skip, m - 1)), Prod(F, f, skip, m - 1))
    ensures Prod(F, g, skip, m) == F.mul(Sign(F, Count(skip, m)), Prod(F, f, skip, m))
  {
    if m - 1 != skip {
      assert Count(skip, m) == Count(skip, m - 1) + 1;
      NegStep(F, Sign(F, Count(skip, m - 1)), Prod(F, f, skip, m - 1), f(m - 1));
    } else {
      assert Count(skip, m) == Count(skip, m - 1);
    }
  }

  /** (s p)(0 - x) == (0 - s)(p x). */
  lemma NegStep(F: Field, s: nat, p: nat, x: nat)
    requires IsField(F) && s < F.count && p < F.count && x < F.count
    ensures F.mul(F.mul(s, p), F.sub(0, x)) == F.mul(F.sub(0, s), F.mul(p, x))
  {
    MulNeg(F, F.mul(s, p), x);
    MulAssoc(F, s, p, x);
    MulNeg(F, s, F.mul(p, x));
  }
}
