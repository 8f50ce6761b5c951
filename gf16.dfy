/**
  The 16-bit table field GF16 (Galois/gf16.swift).

  Only the log and exp tables are kept (a full product table would hold 2^32 entries); they are
  the fields of a `GF16` object. Multiplication, reciprocal and division work on logarithms
  modulo max = count - 1, with short-circuits for zero and one, and each is proved to agree with
  the reference product `MulMod`.
*/
module GF16 {
  import opened Bits
  import opened GF2Poly
  import opened Tables

  class GF16 {
    /** The logarithm table (gf16.swift:10). */
    var log: seq<nat>
    /** The exponential table (gf16.swift:11). */
    var exp: seq<nat>
    /** The polynomial the tables were generated from. */
    ghost var poly: nat

    /** The tables are those of a primitive polynomial of degree at most 16. */
    ghost predicate Valid()
      reads this
    {
      Primitive(poly) && Dim(poly) <= 16 && LogExp(poly, log, exp)
    }

    /** Before generation both tables are empty. */
    constructor()
      ensures log == [] && exp == []
    {
      log, exp := [], [];
      poly := 0;
    }

    /** The number of elements is the length of the log table (gf16.swift:12-15). */
    function Count(): (n: nat)
      reads this
      ensures Valid() ==> n == Size(poly)
    {
      |log|
    }

    /** Generates the log and exp tables of a primitive polynomial (gf16.swift:16-37). */
    method Generate(p: nat)
      requires Primitive(p) && Dim(p) <= 16
      modifies this
      ensures poly == p && Valid()
      ensures Count() == Size(p) && log[0] == Max(p) && exp[Max(p)] == 0
    {
      log, exp := Tables.Generate(p, 16);
      poly := p;
    }

    /** Releases the tables (gf16.swift:38-41): afterwards there are no elements. */
    method Destroy()
      modifies this
      ensures log == [] && exp == [] && Count() == 0
    {
      log, exp := [], [];
    }

    /** Addition is XOR (gf16.swift:42-45); the sum is again an element. */
    function Add(a: nat, b: nat): (r: nat)
      reads this
      requires Valid() && a < Count() && b < Count()
      ensures r < Count()
    {
      XorBound(a, b, Dim(poly));
      Xor(a, b)
    }

    /** Subtraction is addition (gf16.swift:46-49), so it undoes an addition. */
    function Sub(a: nat, b: nat): (r: nat)
      reads this
      requires Valid() && a < Count() && b < Count()
      ensures r < Count() && Add(r, b) == a
    {
      XorCancel(a, b);
      Add(a, b)
    }

    /**
      The product (gf16.swift:50-57): zero when either factor is zero, otherwise the power of
      x whose exponent is the sum of the logarithms modulo max. It is the reference product.
    */
    function Mul(a: nat, b: nat): (r: nat)
      reads this
      requires Valid() && a < Count() && b < Count()
      ensures r < Count() && r == MulMod(poly, a, b)
    {
      TableMulCorrect(poly, log, exp, a, b);
      if a == 0 || b == 0 then 0
      else
        var max := Count() - 1;
        exp[(log[a] + log[b]) % max]
    }

    /**
      The reciprocal of a nonzero element (gf16.swift:58-66): one is its own reciprocal,
      otherwise x^(max - log a). Its product with a is one.
    */
    function Reciprocal(a: nat): (r: nat)
      reads this
      requires Valid() && 0 < a < Count()
      ensures r < Count() && MulMod(poly, a, r) == 1
      ensures a == 1 ==> r == 1
    {
      if a == 1 then
        MulModOne(poly, 1);
        a
      else
        TableReciprocalCorrect(poly, log, exp, a);
        var max := Count() - 1;
        exp[max - log[a]]
    }

    /**
      Division by a nonzero element (gf16.swift:67-75): zero divided by anything and anything
      divided by one are returned unchanged, otherwise the logarithms are subtracted modulo max,
      with max added first so that the index is not negative. The quotient times b is a.
    */
    function Div(a: nat, b: nat): (r: nat)
      reads this
      requires Valid() && a < Count() && 0 < b < Count()
      ensures r < Count() && MulMod(poly, r, b) == a
      ensures a == 0 || b == 1 ==> r == a
    {
      if a == 0 || b == 1 then
        MulModZero(poly, b);
        MulModOne(poly, a);
        a
      else
        TableDivCorrect(poly, log, exp, a, b);
        var max := Count() - 1;
        exp[(log[a] as int - log[b] + max) % max]
    }
  }
}
