/**
  Log and exp tables of a binary field (Galois/gf8.swift:16-36, Galois/gf16.swift:16-36).

  The powers of x modulo a primitive polynomial run through every nonzero element exactly once
  before returning to 1, so every nonzero element a is x^log(a). The table fields multiply,
  invert and divide by adding and subtracting logarithms modulo max = 2^d - 1; the lemmas here
  prove that this agrees with the reference product `MulMod`.
*/
module Tables {
  import opened Bits
  import opened GF2Poly
  import Reference

  /** The number of field elements, 2^d. */
  function Size(poly: nat): (n: nat)
    requires poly >= 2
    ensures n >= 2
  {
    Pow2Monotone(1, Dim(poly));
    Pow2(Dim(poly))
  }

  /** The order of the multiplicative group, 2^d - 1. */
  function Max(poly: nat): (m: nat)
    requires poly >= 2
    ensures m >= 1 && m + 1 == Size(poly)
  {
    Size(poly) - 1
  }

  /** x^i modulo poly, by repeated multiplication by x. */
  function Pow(poly: nat, i: nat): (r: nat)
    requires poly >= 2
    ensures r < Size(poly)
  {
    if i == 0 then 1
    else
      MulXBound(poly, Pow(poly, i - 1));
      MulX(poly, Pow(poly, i - 1))
  }

  /**
    poly is primitive: x has order exactly 2^d - 1, so its powers x^0 .. x^(max-1) are distinct
    and are all the nonzero elements. The library never checks this; it is assumed of every
    polynomial handed to the table generators.
  */
  ghost predicate Primitive(poly: nat)
  {
    && poly >= 2
    && Pow(poly, Max(poly)) == 1
    && (forall i: nat, j: nat :: i < j < Max(poly) ==> PowsDiffer(poly, i, j))
    && (forall a: nat :: 0 < a < Size(poly) ==> IsPower(poly, a))
  }

  /** x^i and x^j are different elements. */
  ghost predicate PowsDiffer(poly: nat, i: nat, j: nat)
    requires poly >= 2
  {
    Pow(poly, i) != Pow(poly, j)
  }

  /** a is one of x^0 .. x^(max-1). */
  ghost predicate IsPower(poly: nat, a: nat)
    requires poly >= 2
  {
    exists i: nat :: i < Max(poly) && Pow(poly, i) == a
  }

  /** The discrete logarithm of a nonzero element. */
  ghost function Log(poly: nat, a: nat): (i: nat)
    requires Primitive(poly) && 0 < a < Size(poly)
    ensures i < Max(poly) && Pow(poly, i) == a
  {
    assert IsPower(poly, a);
    var i: nat :| i < Max(poly) && Pow(poly, i) == a;
    i
  }

  /** The logarithm of x^i is i. */
  lemma LogPow(poly: nat, i: nat)
    requires Primitive(poly) && i < Max(poly)
    ensures Pow(poly, i) != 0 && Log(poly, Pow(poly, i)) == i
  {
    PowNonzero(poly, i);
    var k := Log(poly, Pow(poly, i));
    assert !PowsDiffer(poly, k, i) && !PowsDiffer(poly, i, k);
  }

  /** A primitive polynomial has a constant term: otherwise x^max could not be 1. */
  lemma PolyOdd(poly: nat)
    requires Primitive(poly)
    ensures poly % 2 == 1
  {
    var m := Max(poly);
    var a := Pow(poly, m - 1);
    assert MulX(poly, a) == 1;
    MulXParity(poly, a);
  }

  /** The constant term of x * a is that of poly when a reduction happens, and 0 otherwise. */
  lemma MulXParity(poly: nat, a: nat)
    requires poly >= 2
    ensures MulX(poly, a) % 2 == if a < Pow2(Dim(poly) - 1) then 0 else poly % 2
  {
    XorUnfold(2 * a, poly);
    ParityAdd(2 * a, poly);
  }

  /** With an odd polynomial, multiplication by x never maps a nonzero element to zero. */
  lemma MulXNonzero(poly: nat, a: nat)
    requires poly >= 2 && poly % 2 == 1 && a != 0
    ensures MulX(poly, a) != 0
  {
    if a >= Pow2(Dim(poly) - 1) {
      XorUnfold(2 * a, poly);
    }
  }

  /** No power of x is zero. */
  lemma {:induction false} PowNonzero(poly: nat, i: nat)
    requires Primitive(poly)
    ensures Pow(poly, i) != 0
  {
    if i > 0 {
      PowNonzero(poly, i - 1);
      PolyOdd(poly);
      MulXNonzero(poly, Pow(poly, i - 1));
    }
  }

  /** Multiplication by x commutes with the reduced product. */
  lemma MulModMulX(poly: nat, u: nat, y: nat)
    requires poly >= 2 && u < Pow2(Dim(poly))
    ensures MulMod(poly, MulX(poly, u), y) == MulX(poly, MulMod(poly, u, y))
  {
    PolyModMulX(poly, u, y);
  }

  /** x^i * x^j == x^(i+j): multiplying powers adds exponents. */
  lemma {:induction false} PowAdd(poly: nat, i: nat, j: nat)
    requires poly >= 2
    ensures MulMod(poly, Pow(poly, i), Pow(poly, j)) == Pow(poly, i + j)
  {
    if i == 0 {
      MulModOne(poly, Pow(poly, j));
    } else {
      PowAdd(poly, i - 1, j);
      MulModMulX(poly, Pow(poly, i - 1), Pow(poly, j));
      assert Pow(poly, i + j) == MulX(poly, Pow(poly, i - 1 + j));
    }
  }

  /** Exponents may be taken modulo max. */
  lemma PowPeriod(poly: nat, i: nat)
    requires poly >= 2 && Pow(poly, Max(poly)) == 1
    ensures Pow(poly, i + Max(poly)) == Pow(poly, i)
  {
    PowAdd(poly, i, Max(poly));
    MulModOne(poly, Pow(poly, i));
  }

  /** For an exponent below 2 * max, reducing it modulo max does not change the power. */
  lemma PowReduce(poly: nat, e: nat)
    requires poly >= 2 && Pow(poly, Max(poly)) == 1 && e < 2 * Max(poly)
    ensures e % Max(poly) < Max(poly) && Pow(poly, e % Max(poly)) == Pow(poly, e)
  {
    var m := Max(poly);
    if e < m {
      DivModUnique(e, m, 0, e);
    } else {
      DivModUnique(e, m, 1, e - m);
      PowPeriod(poly, e - m);
    }
  }

  /** Every element other than 0 and 1 has a logarithm in [1, max). */
  lemma LogPositive(poly: nat, a: nat)
    requires Primitive(poly) && 1 < a < Size(poly)
    ensures 0 < Log(poly, a)
  {
    assert Pow(poly, 0) == 1;
  }

  /** A primitive polynomial is irreducible: a factorisation would make x^i * x^j vanish. */
  lemma PrimitiveIrreducible(poly: nat)
    requires Primitive(poly)
    ensures Irreducible(poly)
  {
    forall a: nat | 1 < a < poly
      ensures !Divides(a, poly)
    {
      if Divides(a, poly) {
        var b: nat :| Clmul(a, b) == poly;
        FactorsAreElements(poly, a, b);
        PowAdd(poly, Log(poly, a), Log(poly, b));
        PolyModSelf(poly);
        PowNonzero(poly, Log(poly, a) + Log(poly, b));
      }
    }
  }

  /** The two factors of a proper factorisation of poly are nonzero elements. */
  lemma FactorsAreElements(poly: nat, a: nat, b: nat)
    requires poly >= 2 && 1 < a < poly && Clmul(a, b) == poly
    ensures 0 < a < Size(poly) && 0 < b < Size(poly)
  {
    var d := Dim(poly);
    if b == 0 {
      ClmulZeroRight(a);
    }
    if b == 1 {
      ClmulOneRight(a);
    }
    ClmulDegree(a, b);
    DegreeUnfold(a);
    DegreeUnfold(a / 2);
    DegreeUnfold(b);
    DegreeUnfold(b / 2);
    DegreeBelow(a, d);
    DegreeBelow(b, d);
  }

  // ---------------------------------------------------------------------------------------------
  // The tables and the arithmetic done through them

  /**
    log and exp are the tables of the generator: exp[i] == x^i and log[x^i] == i for i < max,
    with the sentinels log[0] == max and exp[max] == 0.
  */
  ghost predicate LogExp(poly: nat, log: seq<nat>, exp: seq<nat>)
    requires Primitive(poly)
  {
    && |log| == Size(poly) && |exp| == Size(poly)
    && log[0] == Max(poly) && exp[Max(poly)] == 0
    && (forall i: nat {:trigger exp[i]} :: i < Max(poly) ==> exp[i] == Pow(poly, i))
    && (forall a: nat {:trigger log[a]} :: 0 < a < Size(poly) ==> log[a] == Log(poly, a))
  }

  /** The tables after the first i steps of the generator: x^0 .. x^(i-1) are entered. */
  ghost predicate Generated(poly: nat, log: seq<nat>, exp: seq<nat>, i: nat)
    requires Primitive(poly)
  {
    && i <= Max(poly)
    && |log| == Size(poly) && |exp| == Size(poly)
    && log[0] == Max(poly) && exp[Max(poly)] == 0
    && (forall k: nat :: k < i ==> exp[k] == Pow(poly, k))
    && (forall k: nat :: k < i ==> log[Pow(poly, k)] == k)
  }

  /** One generator step enters x^i into both tables without disturbing earlier entries. */
  lemma GeneratedStep(poly: nat, log: seq<nat>, exp: seq<nat>, i: nat)
    requires Primitive(poly) && Generated(poly, log, exp, i) && i < Max(poly)
    ensures 0 < Pow(poly, i)
    ensures Generated(poly, log[Pow(poly, i) := i], exp[i := Pow(poly, i)], i + 1)
  {
    PowNonzero(poly, i);
    forall k: nat | k < i
      ensures Pow(poly, k) != Pow(poly, i)
    {
      assert PowsDiffer(poly, k, i);
    }
  }

  /** After max steps every nonzero element has its logarithm entered. */
  lemma GeneratedAll(poly: nat, log: seq<nat>, exp: seq<nat>)
    requires Primitive(poly) && Generated(poly, log, exp, Max(poly))
    ensures LogExp(poly, log, exp)
  {
    forall a: nat | 0 < a < Size(poly)
      ensures log[a] == Log(poly, a)
    {
      LogPow(poly, Log(poly, a));
    }
  }

  /**
    Generates the log and exp tables (gf8.swift:17-36, gf16.swift:17-36). The register `a`
    holds x^i in a w-bit word; doubling it and adding the truncated polynomial when its top bit
    was set is multiplication by x.
  */
  method Generate(poly: nat, w: nat) returns (log: seq<nat>, exp: seq<nat>)
    requires Primitive(poly) && Dim(poly) <= w
    ensures LogExp(poly, log, exp)
  {
    var d := Dim(poly);
    var size := Pow2(d);
    var max := size - 1;
    log := seq(size, _ => 0);
    exp := seq(size, _ => 0);
    log := log[0 := max];
    exp := exp[max := 0];
    var a: nat := 1;
    var p := Low(poly, w);
    for i := 0 to max
      invariant Generated(poly, log, exp, i)
      invariant a == Pow(poly, i)
    {
      GeneratedStep(poly, log, exp, i);
      log := log[a := i];
      exp := exp[i := a];
      Reference.RegisterMulX(poly, w, a);
      if Shr(a, d - 1) == 1 {
        a := Shl(a, 1, w);
        a := Xor(a, p);
      } else {
        a := Shl(a, 1, w);
      }
    }
    GeneratedAll(poly, log, exp);
  }

  /** A table product: zero if either factor is zero, otherwise add the logarithms mod max. */
  function TableMul(poly: nat, log: seq<nat>, exp: seq<nat>, a: nat, b: nat): nat
    requires Primitive(poly) && LogExp(poly, log, exp) && a < Size(poly) && b < Size(poly)
  {
    if a == 0 || b == 0 then 0
    else
      PowReduce(poly, log[a] + log[b]);
      exp[(log[a] + log[b]) % Max(poly)]
  }

  /** Adding two logarithms mod max multiplies the elements. */
  lemma LogSum(poly: nat, i: nat, j: nat)
    requires poly >= 2 && Pow(poly, Max(poly)) == 1 && i < Max(poly) && j < Max(poly)
    ensures (i + j) % Max(poly) < Max(poly)
    ensures Pow(poly, (i + j) % Max(poly)) == MulMod(poly, Pow(poly, i), Pow(poly, j))
  {
    PowReduce(poly, i + j);
    PowAdd(poly, i, j);
  }

  /** The table product is the reference product (gf8.swift:40-44, gf16.swift:51-57). */
  lemma TableMulCorrect(poly: nat, log: seq<nat>, exp: seq<nat>, a: nat, b: nat)
    requires Primitive(poly) && LogExp(poly, log, exp) && a < Size(poly) && b < Size(poly)
    ensures TableMul(poly, log, exp, a, b) == MulMod(poly, a, b)
  {
    if a == 0 || b == 0 {
      MulModZero(poly, a);
      MulModZero(poly, b);
    } else {
      var i, j, m := log[a], log[b], Max(poly);
      assert Pow(poly, i) == a && Pow(poly, j) == b;
      LogSum(poly, i, j);
      var e := (i + j) % m;
      assert exp[e] == Pow(poly, e);
      assert TableMul(poly, log, exp, a, b) == exp[e];
    }
  }

  /**
    The table reciprocal of an element other than 0 and 1, x^(max - log a), is its inverse
    (gf8.swift:50-52, gf16.swift:64-65).
  */
  lemma TableReciprocalCorrect(poly: nat, log: seq<nat>, exp: seq<nat>, a: nat)
    requires Primitive(poly) && LogExp(poly, log, exp) && 1 < a < Size(poly)
    ensures 0 < Max(poly) - log[a] < Max(poly)
    ensures MulMod(poly, a, exp[Max(poly) - log[a]]) == 1
  {
    LogPositive(poly, a);
    PowAdd(poly, log[a], Max(poly) - log[a]);
  }

  /**
    The table quotient of a nonzero a by b, x^((log a - log b + max) mod max), times b is a
    (gf16.swift:73-74).
  */
  lemma TableDivCorrect(poly: nat, log: seq<nat>, exp: seq<nat>, a: nat, b: nat)
    requires Primitive(poly) && LogExp(poly, log, exp) && 0 < a < Size(poly) && 0 < b < Size(poly)
    ensures 0 <= log[a] as int - log[b] + Max(poly) < 2 * Max(poly)
    ensures var e := (log[a] as int - log[b] + Max(poly)) % Max(poly);
      e < Max(poly) && MulMod(poly, exp[e], b) == a
  {
    var i, j, m := log[a], log[b], Max(poly);
    assert Pow(poly, i) == a && Pow(poly, j) == b && i < m && j < m;
    LogDifference(poly, i, j);
    var e := (i as int - j + m) % m;
    assert exp[e] == Pow(poly, e);
  }

  /** Subtracting two logarithms mod max divides the elements. */
  lemma LogDifference(poly: nat, i: nat, j: nat)
    requires poly >= 2 && Pow(poly, Max(poly)) == 1 && i < Max(poly) && j < Max(poly)
    ensures 0 <= i as int - j + Max(poly) < 2 * Max(poly)
    ensures var e := (i as int - j + Max(poly)) % Max(poly);
      e < Max(poly) && MulMod(poly, Pow(poly, e), Pow(poly, j)) == Pow(poly, i)
  {
    var m := Max(poly);
    var e0: nat := i as int - j + m;
    PowReduce(poly, e0);
    PowAdd(poly, e0, j);
    assert e0 + j == i + m;
    PowPeriod(poly, i);
  }

}
