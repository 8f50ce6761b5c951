/**
  Polynomials over a field, as lists of coefficients with the constant term first.

  The coders never build polynomials: they only evaluate sums and products. The polynomials here
  are the proof device behind their round trips. A polynomial with no more coefficients than it
  has distinct roots is zero everywhere (`ZeroPoly`), so two polynomials of at most n coefficients
  that agree at n distinct points agree everywhere.

  Evaluation works from a coefficient index upwards (`EvalFrom`), and the operations define each
  coefficient of their result directly, so that no proof has to take a list apart.
*/
module Polynomials {
  import opened Fields

  /** Coefficient i of p: zero outside the list. */
  function Coef(p: seq<nat>, i: int): (r: nat)
    ensures 0 <= i < |p| ==> r == p[i]
    ensures !(0 <= i < |p|) ==> r == 0
  {
    if 0 <= i < |p| then p[i] else 0
  }

  lemma CoefIn(F: Field, p: seq<nat>, i: int)
    requires IsField(F) && Elements(F, p)
    ensures Coef(p, i) < F.count
  {
  }

  /** The value at z of the coefficients from i on: p[i] + p[i+1] z + p[i+2] z^2 + ... */
  function EvalFrom(F: Field, p: seq<nat>, i: nat, z: nat): (r: nat)
    requires IsField(F) && Elements(F, p) && z < F.count
    ensures r < F.count
    decreases |p| - i
  {
    if i >= |p| then 0 else F.add(p[i], F.mul(z, EvalFrom(F, p, i + 1, z)))
  }

  /** The value of p at z, by Horner's rule. */
  function Eval(F: Field, p: seq<nat>, z: nat): (r: nat)
    requires IsField(F) && Elements(F, p) && z < F.count
    ensures r < F.count
  {
    EvalFrom(F, p, 0, z)
  }

  /** One step of Horner's rule, also past the end of the list. */
  lemma EvalFromStep(F: Field, p: seq<nat>, i: nat, z: nat)
    requires IsField(F) && Elements(F, p) && z < F.count
    ensures EvalFrom(F, p, i, z) == F.add(Coef(p, i), F.mul(z, EvalFrom(F, p, i + 1, z)))
  {
    if i >= |p| {
      MulZero(F, z);
      AddZero(F, 0);
    }
  }

  /** A constant polynomial. */
  lemma EvalConst(F: Field, a: nat, z: nat)
    requires IsField(F) && a < F.count && z < F.count
    ensures Elements(F, [a]) && Eval(F, [a], z) == a
  {
    EvalFromStep(F, [a], 0, z);
    MulZero(F, z);
    AddZero(F, a);
  }

  // ---------------------------------------------------------------------------------------------
  // Scaling

  /** a times p. */
  function Scale(F: Field, p: seq<nat>, a: nat): (r: seq<nat>)
    requires IsField(F) && Elements(F, p) && a < F.count
    ensures |r| == |p| && Elements(F, r)
    ensures forall i :: 0 <= i < |p| ==> r[i] == F.mul(a, p[i])
  {
    seq(|p|, i requires 0 <= i < |p| => F.mul(a, p[i]))
  }

  lemma {:induction false} EvalFromScale(F: Field, p: seq<nat>, a: nat, z: nat, i: nat)
    requires IsField(F) && Elements(F, p) && a < F.count && z < F.count
    ensures EvalFrom(F, Scale(F, p, a), i, z) == F.mul(a, EvalFrom(F, p, i, z))
    decreases |p| - i
  {
    if i >= |p| {
      MulZero(F, a);
    } else {
      var t := EvalFrom(F, p, i + 1, z);
      EvalFromScale(F, p, a, z, i + 1);
      MulSwap(F, z, a, t);
      Distrib(F, a, p[i], F.mul(z, t));
    }
  }

  lemma EvalScale(F: Field, p: seq<nat>, a: nat, z: nat)
    requires IsField(F) && Elements(F, p) && a < F.count && z < F.count
    ensures Eval(F, Scale(F, p, a), z) == F.mul(a, Eval(F, p, z))
  {
    EvalFromScale(F, p, a, z, 0);
  }

  // ---------------------------------------------------------------------------------------------
  // Sums and differences

  /** p plus q. */
  function Plus(F: Field, p: seq<nat>, q: seq<nat>): (r: seq<nat>)
    requires IsField(F) && Elements(F, p) && Elements(F, q)
    ensures |r| == if |p| < |q| then |q| else |p|
    ensures Elements(F, r)
    ensures forall i :: 0 <= i < |r| ==> r[i] == F.add(Coef(p, i), Coef(q, i))
  {
    var n := if |p| < |q| then |q| else |p|;
    var r := seq<nat>(n, i requires 0 <= i < n => F.add(Coef(p, i), Coef(q, i)));
    assert Elements(F, r) by {
      forall i | 0 <= i < n
        ensures r[i] < F.count
      {
        CoefIn(F, p, i);
        CoefIn(F, q, i);
      }
    }
    r
  }

  lemma {:induction false} EvalFromPlus(F: Field, p: seq<nat>, q: seq<nat>, z: nat, i: nat)
    requires IsField(F) && Elements(F, p) && Elements(F, q) && z < F.count
    ensures EvalFrom(F, Plus(F, p, q), i, z) == F.add(EvalFrom(F, p, i, z), EvalFrom(F, q, i, z))
    decreases |p| + |q| - i
  {
    var r := Plus(F, p, q);
    if i >= |r| {
      AddZero(F, 0);
    } else {
      var s, t := EvalFrom(F, p, i + 1, z), EvalFrom(F, q, i + 1, z);
      EvalFromPlus(F, p, q, z, i + 1);
      EvalFromStep(F, p, i, z);
      EvalFromStep(F, q, i, z);
      CoefIn(F, p, i);
      CoefIn(F, q, i);
      Distrib(F, z, s, t);
      AddSwap(F, Coef(p, i), Coef(q, i), F.mul(z, s), F.mul(z, t));
    }
  }

  lemma EvalPlus(F: Field, p: seq<nat>, q: seq<nat>, z: nat)
    requires IsField(F) && Elements(F, p) && Elements(F, q) && z < F.count
    ensures Eval(F, Plus(F, p, q), z) == F.add(Eval(F, p, z), Eval(F, q, z))
  {
    EvalFromPlus(F, p, q, z, 0);
  }

  /** p minus q, as p plus (0 - 1) times q. */
  function Minus(F: Field, p: seq<nat>, q: seq<nat>): (r: seq<nat>)
    requires IsField(F) && Elements(F, p) && Elements(F, q)
    ensures |r| == if |p| < |q| then |q| else |p|
    ensures Elements(F, r)
  {
    Plus(F, p, Scale(F, q, F.sub(0, 1)))
  }

  lemma EvalMinus(F: Field, p: seq<nat>, q: seq<nat>, z: nat)
    requires IsField(F) && Elements(F, p) && Elements(F, q) && z < F.count
    ensures Eval(F, Minus(F, p, q), z) == F.sub(Eval(F, p, z), Eval(F, q, z))
  {
    EvalPlus(F, p, Scale(F, q, F.sub(0, 1)), z);
    EvalScale(F, q, F.sub(0, 1), z);
    MulNegOne(F, Eval(F, q, z));
    SubIsAddNeg(F, Eval(F, p, z), Eval(F, q, z));
  }

  /** The sum of the first k values. */
  function SumValues(F: Field, vs: seq<nat>, k: nat): (r: nat)
    requires IsField(F) && Elements(F, vs) && k <= |vs|
    ensures r < F.count
  {
    if k == 0 then 0 else F.add(SumValues(F, vs, k - 1), vs[k - 1])
  }

  /** Every polynomial of the list has its coefficients in F. */
  ghost predicate AllElements(F: Field, ps: seq<seq<nat>>)
  {
    forall j :: 0 <= j < |ps| ==> Elements(F, ps[j])
  }

  /** The sum of the first k polynomials. */
  function SumPolys(F: Field, ps: seq<seq<nat>>, k: nat): (r: seq<nat>)
    requires IsField(F) && AllElements(F, ps) && k <= |ps|
    ensures Elements(F, r)
  {
    if k == 0 then [] else Plus(F, SumPolys(F, ps, k - 1), ps[k - 1])
  }

  /** A sum is no longer than its longest summand. */
  lemma {:induction false} SumPolysLength(F: Field, ps: seq<seq<nat>>, k: nat, b: nat)
    requires IsField(F) && AllElements(F, ps) && k <= |ps|
    requires forall j :: 0 <= j < |ps| ==> |ps[j]| <= b
    ensures |SumPolys(F, ps, k)| <= b
  {
    if k > 0 {
      SumPolysLength(F, ps, k - 1, b);
    }
  }

  /** The value of a sum of polynomials is the sum of their values. */
  lemma {:induction false} EvalSumPolys(F: Field, ps: seq<seq<nat>>, k: nat, z: nat, vs: seq<nat>)
    requires IsField(F) && AllElements(F, ps) && k <= |ps| && z < F.count
    requires Elements(F, vs) && |vs| == |ps|
    requires forall j :: 0 <= j < |ps| ==> Eval(F, ps[j], z) == vs[j]
    ensures Eval(F, SumPolys(F, ps, k), z) == SumValues(F, vs, k)
  {
    if k > 0 {
      EvalSumPolys(F, ps, k - 1, z, vs);
      EvalPlus(F, SumPolys(F, ps, k - 1), ps[k - 1], z);
    }
  }

  // ---------------------------------------------------------------------------------------------
  // Multiplying by a linear factor

  /** p times (z - c): coefficient i is p[i-1] - c p[i]. */
  function MulLinear(F: Field, p: seq<nat>, c: nat): (r: seq<nat>)
    requires IsField(F) && Elements(F, p) && c < F.count
    ensures |r| == |p| + 1 && Elements(F, r)
    ensures forall i :: 0 <= i < |r| ==> r[i] == F.add(Coef(p, i - 1), F.mul(F.sub(0, c), Coef(p, i)))
  {
    var r := seq<nat>(|p| + 1, i requires 0 <= i < |p| + 1 => F.add(Coef(p, i - 1), F.mul(F.sub(0, c), Coef(p, i))));
    assert Elements(F, r) by {
      forall i | 0 <= i < |p| + 1
        ensures r[i] < F.count
      {
        CoefIn(F, p, i - 1);
        CoefIn(F, p, i);
      }
    }
    r
  }

  /**
    The algebra of one step: with s == z - c and n == 0 - c, the value (b + n a) + z (a + s t) of
    the product equals b + s (a + z t).
  */
  lemma LinearStep(F: Field, a: nat, b: nat, c: nat, z: nat, t: nat)
    requires IsField(F) && a < F.count && b < F.count && c < F.count && z < F.count && t < F.count
    ensures F.add(F.add(b, F.mul(F.sub(0, c), a)), F.mul(z, F.add(a, F.mul(F.sub(z, c), t))))
         == F.add(b, F.mul(F.sub(z, c), F.add(a, F.mul(z, t))))
  {
    var s, n := F.sub(z, c), F.sub(0, c);
    var na, za, zst := F.mul(n, a), F.mul(z, a), F.mul(z, F.mul(s, t));
    // z (a + s t) == z a + z s t
    Distrib(F, z, a, F.mul(s, t));
    // (b + n a) + (z a + z s t) == b + ((n a + z a) + z s t)
    AddAssoc(F, b, na, F.add(za, zst));
    AddAssoc(F, na, za, zst);
    // s (a + z t) == s a + s z t, with s a == n a + z a and s z t == z s t
    Distrib(F, s, a, F.mul(z, t));
    MulComm(F, s, a);
    SubIsAddNeg(F, z, c);
    Distrib(F, a, z, n);
    MulComm(F, a, z);
    MulComm(F, a, n);
    AddComm(F, za, na);
    MulSwap(F, s, z, t);
  }

  lemma {:induction false} EvalFromMulLinear(F: Field, p: seq<nat>, c: nat, z: nat, i: nat)
    requires IsField(F) && Elements(F, p) && c < F.count && z < F.count
    ensures EvalFrom(F, MulLinear(F, p, c), i, z)
         == F.add(Coef(p, i - 1), F.mul(F.sub(z, c), EvalFrom(F, p, i, z)))
    decreases |p| + 1 - i
  {
    var r := MulLinear(F, p, c);
    var s := F.sub(z, c);
    CoefIn(F, p, i - 1);
    if i >= |r| {
      MulZero(F, s);
      AddZero(F, 0);
    } else {
      var t := EvalFrom(F, p, i + 1, z);
      EvalFromMulLinear(F, p, c, z, i + 1);
      EvalFromStep(F, r, i, z);
      EvalFromStep(F, p, i, z);
      CoefIn(F, p, i);
      LinearStep(F, Coef(p, i), Coef(p, i - 1), c, z, t);
    }
  }

  lemma EvalMulLinear(F: Field, p: seq<nat>, c: nat, z: nat)
    requires IsField(F) && Elements(F, p) && c < F.count && z < F.count
    ensures Eval(F, MulLinear(F, p, c), z) == F.mul(Eval(F, p, z), F.sub(z, c))
  {
    var e := F.mul(F.sub(z, c), Eval(F, p, z));
    EvalFromMulLinear(F, p, c, z, 0);
    AddComm(F, 0, e);
    AddZero(F, e);
    MulComm(F, F.sub(z, c), Eval(F, p, z));
  }

  // ---------------------------------------------------------------------------------------------
  // Dividing by a linear factor

  /** The quotient of p by (z - c) in synthetic division: coefficient i is p[i+1 ..] at c. */
  function Quot(F: Field, p: seq<nat>, c: nat): (r: seq<nat>)
    requires IsField(F) && Elements(F, p) && c < F.count
    ensures |r| == if |p| == 0 then 0 else |p| - 1
    ensures Elements(F, r)
    ensures forall i :: 0 <= i < |r| ==> r[i] == EvalFrom(F, p, i + 1, c)
  {
    var n := if |p| == 0 then 0 else |p| - 1;
    seq(n, i requires 0 <= i < n => EvalFrom(F, p, i + 1, c))
  }

  /**
    The algebra of one step of synthetic division: with t(z) == t(c) + (z - c) q, the value
    p0 + z t(z) is p0 + c t(c) + (z - c)(t(c) + z q).
  */
  lemma TailStep(F: Field, p0: nat, c: nat, z: nat, tc: nat, q: nat)
    requires IsField(F) && p0 < F.count && c < F.count && z < F.count && tc < F.count && q < F.count
    ensures F.add(p0, F.mul(z, F.add(tc, F.mul(F.sub(z, c), q))))
         == F.add(F.add(p0, F.mul(c, tc)), F.mul(F.sub(z, c), F.add(tc, F.mul(z, q))))
  {
    var s := F.sub(z, c);
    var a, b, d := F.mul(c, tc), F.mul(s, tc), F.mul(s, F.mul(z, q));
    // (z - c)(tc + z q) == s tc + s z q
    Distrib(F, s, tc, F.mul(z, q));
    // p0 + c tc + (s tc + s z q) == p0 + ((c tc + s tc) + s z q)
    AddAssoc(F, p0, a, F.add(b, d));
    AddAssoc(F, a, b, d);
    // c tc + s tc == z tc
    DistribRight(F, c, s, tc);
    AddSub(F, z, c);
    AddComm(F, c, s);
    // s z q == z s q, and z tc + z s q == z (tc + s q)
    MulSwap(F, s, z, q);
    Distrib(F, z, tc, F.mul(s, q));
  }

  lemma {:induction false} EvalFromQuot(F: Field, p: seq<nat>, c: nat, z: nat, i: nat)
    requires IsField(F) && Elements(F, p) && c < F.count && z < F.count
    ensures EvalFrom(F, p, i, z)
         == F.add(EvalFrom(F, p, i, c), F.mul(F.sub(z, c), EvalFrom(F, Quot(F, p, c), i, z)))
    decreases |p| - i
  {
    var q := Quot(F, p, c);
    if i >= |p| {
      MulZero(F, F.sub(z, c));
      AddZero(F, 0);
    } else {
      var tc, qz := EvalFrom(F, p, i + 1, c), EvalFrom(F, q, i + 1, z);
      assert Coef(q, i) == tc;
      EvalFromQuot(F, p, c, z, i + 1);
      EvalFromStep(F, q, i, z);
      TailStep(F, p[i], c, z, tc, qz);
    }
  }

  /** Synthetic division: p(z) == p(c) + (z - c) q(z) for the quotient q. */
  lemma EvalQuot(F: Field, p: seq<nat>, c: nat, z: nat)
    requires IsField(F) && Elements(F, p) && c < F.count && z < F.count
    ensures Eval(F, p, z) == F.add(Eval(F, p, c), F.mul(F.sub(z, c), Eval(F, Quot(F, p, c), z)))
  {
    EvalFromQuot(F, p, c, z, 0);
  }

  // ---------------------------------------------------------------------------------------------
  // Roots

  /** Distinct points. */
  predicate DistinctPoints(xs: seq<nat>)
  {
    forall k, l :: 0 <= k < |xs| && 0 <= l < |xs| && k != l ==> xs[k] != xs[l]
  }

  /** A polynomial with no more coefficients than distinct roots vanishes everywhere. */
  lemma {:induction false} ZeroPoly(F: Field, p: seq<nat>, roots: seq<nat>)
    requires IsField(F) && Elements(F, p) && Elements(F, roots) && DistinctPoints(roots)
    requires |p| <= |roots|
    requires forall k :: 0 <= k < |roots| ==> Eval(F, p, roots[k]) == 0
    ensures forall z: nat :: z < F.count ==> Eval(F, p, z) == 0
    decreases |roots|
  {
    if |p| > 0 {
      var c := roots[|roots| - 1];
      var rest := roots[..|roots| - 1];
      var q := Quot(F, p, c);
      forall k | 0 <= k < |rest|
        ensures Eval(F, q, rest[k]) == 0
      {
        var r := rest[k];
        EvalQuot(F, p, c, r);
        AddZero(F, F.mul(F.sub(r, c), Eval(F, q, r)));
        SubZero(F, r, c);
        MulZeroIff(F, F.sub(r, c), Eval(F, q, r));
      }
      ZeroPoly(F, q, rest);
      forall z: nat | z < F.count
        ensures Eval(F, p, z) == 0
      {
        EvalQuot(F, p, c, z);
        MulZero(F, F.sub(z, c));
        AddZero(F, 0);
      }
    } else {
      forall z: nat | z < F.count
        ensures Eval(F, p, z) == 0
      {
      }
    }
  }
}
