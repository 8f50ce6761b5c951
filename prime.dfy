/**
 * The prime field GF(p) of Galois/prime.swift: elements are the residues
 * 0 .. p-1, addition, subtraction and multiplication are taken modulo p, and
 * the reciprocal is the integer extended Euclidean algorithm.
 */
module Prime {
  import opened Bits

  /** a divides n in the integers. */
  ghost predicate IntDivides(a: nat, n: nat)
  {
    exists b: nat :: a * b == n
  }

  /** p is a prime number: no factor strictly between 1 and p. */
  ghost predicate IsPrime(p: nat)
  {
    p >= 2 && forall a: nat :: 1 < a < p ==> !IntDivides(a, p)
  }

  /** The number of elements of GF(p) (prime.swift:11-13). */
  function Count(p: nat): nat
  {
    p
  }

  /** Sum modulo p (prime.swift:15-17). */
  function Add(p: nat, a: nat, b: nat): (r: nat)
    requires a < p && b < p
    ensures r < p
    ensures if a + b < p then r == a + b else r + p == a + b
  {
    var x: nat := a + b;
    assert x % p == if x < p then x else x - p by {
      if x < p { DivModUnique(x, p, 0, x); } else { DivModUnique(x, p, 1, x - p); }
    }
    x % p
  }

  /**
   * Difference modulo p (prime.swift:19-21): p is added before the reduction
   * so that the dividend is never negative.
   */
  function Sub(p: nat, a: nat, b: nat): (r: nat)
    requires a < p && b < p
    ensures a - b + p >= 0
    ensures r < p && Add(p, r, b) == a
  {
    var x: nat := a - b + p;
    assert x % p == if x < p then x else x - p by {
      if x < p { DivModUnique(x, p, 0, x); } else { DivModUnique(x, p, 1, x - p); }
    }
    x % p
  }

  /** Product modulo p (prime.swift:23-25). */
  function Mul(p: nat, a: nat, b: nat): (r: nat)
    requires a < p && b < p
    ensures r < p
    ensures exists k: nat :: a * b == k * p + r
  {
    var k, r := (a * b) / p, (a * b) % p;
    assert a * b == k * p + r;
    r
  }

  /** Subtraction undoes addition. */
  lemma SubAdd(p: nat, a: nat, b: nat)
    requires a < p && b < p
    ensures Sub(p, Add(p, a, b), b) == a
  {
    var s := Add(p, a, b);
    var d := Sub(p, s, b);
    assert Add(p, d, b) == s;
  }

  /** Every element minus itself is zero. */
  lemma SubSelf(p: nat, a: nat)
    requires a < p
    ensures Sub(p, a, a) == 0
  {
  }

  /** Multiplication is commutative. */
  lemma MulComm(p: nat, a: nat, b: nat)
    requires a < p && b < p
    ensures Mul(p, a, b) == Mul(p, b, a)
  {
    assert a * b == b * a;
  }

  /** One is the multiplicative identity. */
  lemma MulOne(p: nat, a: nat)
    requires 1 < p && a < p
    ensures Mul(p, a, 1) == a
  {
    DivModUnique(a * 1, p, 0, a);
  }

  /** A negative multiple of p is at most -p. */
  lemma NegativeMultiple(k: int, p: nat)
    requires k < 0
    ensures k * p + p <= 0
  {
    var m: nat := -k - 1;
    assert k * p == -(m * p) - p;
  }

  /** Integer division by a divisor no larger than the dividend: quotient at least one. */
  lemma DivisionStep(r: int, n: int)
    requires 0 < n < r
    ensures r / n >= 1 && 0 <= r - r / n * n < n
  {
    var q := r / n;
    assert r == q * n + r % n;
  }

  /** Multiplication by a positive factor is strictly monotone. */
  lemma MulStrict(a: nat, b: nat, c: nat)
    requires a >= 1 && b < c
    ensures a * b < a * c
  {
    MulMonotone(a, b + 1, c);
  }

  /** Residues are unique: two representations of x with remainders below p agree. */
  lemma ResidueUnique(p: nat, x: int, k: int, r: int)
    requires p >= 1 && x >= 0 && 0 <= r < p && x == k * p + r
    ensures k >= 0 && x % p == r
  {
    if k < 0 {
      NegativeMultiple(k, p);
    }
    DivModUnique(x, p, k, r);
  }

  /** The absolute value of an integer. */
  function Abs(x: int): nat
  {
    if x < 0 then -x else x
  }

  /**
   * The loop state of the reciprocal (prime.swift:32-38), with the Bézout
   * coefficients s and news of p made explicit: r == s*p + t*value and
   * newr == news*p + newt*value, so t*value is congruent to r and newt*value
   * to newr. The rows are bounded by |newt|*r + |t|*newr == p.
   */
  ghost predicate EuclidState(p: nat, value: nat, r: int, newr: int, t: int, newt: int, s: int, news: int)
  {
    && 0 <= newr < r <= p
    && t * newt <= 0 && newt != 0
    && Abs(newt) * r + Abs(t) * newr == p
    && Abs(t) * r < p
    && r == s * p + t * value
    && newr == news * p + newt * value
    && (r == p ==> newr == value)
  }

  /** Cofactors of opposite signs: subtracting q times one from the other adds magnitudes. */
  lemma SignStep(t: int, newt: int, q: int)
    requires t * newt <= 0 && newt != 0 && q >= 1
    ensures Abs(t - q * newt) == Abs(t) + q * Abs(newt)
    ensures newt * (t - q * newt) <= 0
    ensures t - q * newt != 0
  {
    if newt > 0 {
      assert t <= 0;
      assert q * newt > 0;
    } else {
      assert t >= 0;
      assert q * newt < 0;
      assert Abs(t - q * newt) == t - q * newt;
      assert q * Abs(newt) == -(q * newt);
    }
  }

  /** The bound |newt|*r + |t|*newr == p is kept by one division step. */
  lemma BoundStep(p: nat, r: int, newr: int, t: int, newt: int, q: int, rem: int)
    requires 0 < newr && r == q * newr + rem
    requires Abs(newt) * r + Abs(t) * newr == p
    ensures (Abs(t) + q * Abs(newt)) * newr + Abs(newt) * rem == p
  {
    var a, b := Abs(newt), Abs(t);
    calc {
      (b + q * a) * newr + a * rem;
      b * newr + a * (q * newr) + a * rem;
      b * newr + a * (q * newr + rem);
    }
  }

  /** The Bézout relation of the new remainder. */
  lemma BezoutStep(p: nat, value: nat, r: int, newr: int, t: int, newt: int, s: int, news: int, q: int)
    requires r == s * p + t * value && newr == news * p + newt * value
    ensures r - q * newr == (s - q * news) * p + (t - q * newt) * value
  {
    calc {
      r - q * newr;
      s * p + t * value - q * (news * p + newt * value);
      s * p - q * news * p + t * value - q * newt * value;
      (s - q * news) * p + (t - q * newt) * value;
    }
  }

  /** One iteration of the loop preserves the state. */
  lemma EuclidStep(p: nat, value: nat, r: int, newr: int, t: int, newt: int, s: int, news: int)
    requires EuclidState(p, value, r, newr, t, newt, s, news) && newr != 0
    ensures r / newr >= 1
    ensures EuclidState(p, value, newr, r - r / newr * newr, newt, t - r / newr * newt,
                        news, s - r / newr * news)
  {
    var q := r / newr;
    var rem := r - q * newr;
    DivisionStep(r, newr);
    SignStep(t, newt, q);
    BoundStep(p, r, newr, t, newt, q, rem);
    BezoutStep(p, value, r, newr, t, newt, s, news, q);
    MulStrict(Abs(newt), newr, r);
    assert newt * (t - q * newt) <= 0;
  }

  /** When the remainder reaches zero, r is a divisor of p below p, hence 1. */
  lemma FinalRemainder(p: nat, value: nat, r: int, t: int, newt: int, s: int, news: int)
    requires IsPrime(p) && 0 < value < p
    requires EuclidState(p, value, r, 0, t, newt, s, news)
    ensures r == 1 && Abs(t) < p
  {
    var b: nat := Abs(newt);
    var rn: nat := r;
    assert rn * b == p;
    assert IntDivides(rn, p);
    assert rn < p;
    assert rn == 1;
  }

  /**
   * From the Bézout identity 1 == s*p + t*value with |t| < p, the cofactor t
   * moved into [0, p) is the inverse of value.
   */
  lemma Normalise(p: nat, value: nat, t: int, s: int)
    requires 1 < p && value < p && 1 == s * p + t * value && Abs(t) < p
    ensures var u := if t < 0 then t + p else t; 0 <= u < p && Mul(p, value, u) == 1
  {
    var u := if t < 0 then t + p else t;
    var k := if t < 0 then value - s else -s;
    assert value * u == k * p + 1;
    ResidueUnique(p, value * u, k, 1);
  }

  /** The remainder of a division by a positive n lies below n. */
  lemma Remainder(r: int, n: int)
    requires 0 < n
    ensures 0 <= r - r / n * n < n
  {
    assert r == r / n * n + r % n;
  }

  /**
   * The cofactor the loop of the reciprocal (prime.swift:32-38) ends with when
   * it starts from the state (r, newr, t, newt).
   */
  function Cofactor(r: int, newr: int, t: int, newt: int): int
    requires 0 <= newr
    decreases newr
  {
    if newr == 0 then t
    else
      Remainder(r, newr);
      Cofactor(newr, r - r / newr * newr, newt, t - r / newr * newt)
  }

  /**
   * From every loop state the final cofactor is smaller than p in size and,
   * when p is prime, it inverts value once moved into [0, p).
   */
  lemma {:induction false} CofactorInverts(p: nat, value: nat, r: int, newr: int, t: int, newt: int, s: int, news: int)
    requires 0 < value < p && EuclidState(p, value, r, newr, t, newt, s, news)
    ensures Abs(Cofactor(r, newr, t, newt)) < p
    ensures var c := Cofactor(r, newr, t, newt);
      IsPrime(p) ==> Mul(p, value, if c < 0 then c + p else c) == 1
    decreases newr
  {
    if newr == 0 {
      MulMonotone(Abs(t), 1, r);
      if IsPrime(p) {
        FinalRemainder(p, value, r, t, newt, s, news);
        Normalise(p, value, t, s);
      }
    } else {
      EuclidStep(p, value, r, newr, t, newt, s, news);
      var q := r / newr;
      CofactorInverts(p, value, newr, r - q * newr, newt, t - q * newt, news, s - q * news);
    }
  }

  /**
   * The reciprocal as a value (prime.swift:26-44): one is its own reciprocal,
   * otherwise the final cofactor of the Euclidean algorithm on p and value,
   * moved into [0, p). For a prime p its product with value is one.
   */
  function Rcp(p: nat, value: nat): (inv: nat)
    requires 0 < value < p
    ensures inv < p
    ensures IsPrime(p) ==> Mul(p, value, inv) == 1
  {
    if value == 1 then
      MulOne(p, 1);
      1
    else
      CofactorInverts(p, value, p, value, 0, 1, 1, 0);
      var t := Cofactor(p, value, 0, 1);
      if t < 0 then t + p else t
  }

  /**
   * The reciprocal by the integer extended Euclidean algorithm
   * (prime.swift:26-44). It rejects zero, maps one to itself and otherwise
   * runs the loop, whose state always leads to the same final cofactor and
   * keeps the Bézout identities of `EuclidState`. For a prime modulus the
   * remainder ends at one, so the assertion of prime.swift:39 holds, and the
   * result times value is one.
   */
  method Reciprocal(p: nat, value: nat) returns (inv: nat)
    requires IsPrime(p) && 0 < value < p
    ensures inv == Rcp(p, value)
    ensures inv < p && Mul(p, value, inv) == 1
  {
    if value == 1 {
      return value;
    }
    var t: int, newt: int := 0, 1;
    var r: int, newr: int := p, value;
    // The cofactors of p, which the source does not keep, witness the Bézout identities.
    ghost var s: int, news: int := 1, 0;
    while newr != 0
      invariant EuclidState(p, value, r, newr, t, newt, s, news)
      invariant Cofactor(r, newr, t, newt) == Cofactor(p, value, 0, 1)
      decreases newr
    {
      EuclidStep(p, value, r, newr, t, newt, s, news);
      Remainder(r, newr);
      var quotient := r / newr;
      t, newt := newt, t - quotient * newt;
      r, newr := newr, r - quotient * newr;
      s, news := news, s - quotient * news;
    }
    // The assertion of prime.swift:39: the last nonzero remainder is one.
    FinalRemainder(p, value, r, t, newt, s, news);
    assert r <= 1;
    assert t == Cofactor(p, value, 0, 1);
    CofactorInverts(p, value, p, value, 0, 1, 1, 0);
    if t < 0 {
      t := t + p;
    }
    inv := t;
  }
}
