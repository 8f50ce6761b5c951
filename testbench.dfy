/**
  The exhaustive equivalence test of testbench.swift: for a table field generated from a
  polynomial, every product, quotient and reciprocal agrees with the reference field of the same
  polynomial. Here each agreement the test asserts is proved for every primitive polynomial that
  fits the table field, and the polynomial constants the test uses are checked.
*/
module Testbench {
  import opened Bits
  import opened GF2Poly
  import opened Tables
  import Reference
  import GF8
  import GF16

  /** 2^4, 2^8, 2^14, 2^16 and 2^32. */
  lemma Powers()
    ensures Pow2(4) == 16 && Pow2(5) == 32 && Pow2(8) == 256 && Pow2(9) == 512
    ensures Pow2(14) == 16384 && Pow2(15) == 32768 && Pow2(16) == 65536 && Pow2(17) == 131072
    ensures Pow2(32) == 4294967296 && Pow2(33) == 8589934592
  {
    assert Pow2(4) == 16;
    Pow2Add(4, 4);
    Pow2Add(8, 1);
    Pow2Add(8, 4);
    Pow2Add(12, 2);
    Pow2Add(14, 1);
    Pow2Add(8, 8);
    Pow2Add(16, 1);
    Pow2Add(16, 16);
    Pow2Add(32, 1);
  }

  /**
    The degree of each polynomial constant is its `bits` (testbench.swift:242-281), and its
    `max` is 2^bits - 1.
  */
  lemma PolynomialDegrees()
    ensures Degree(19) == 4 && Degree(285) == 8 && Degree(16427) == 14
    ensures Degree(69643) == 16 && Degree(4299161607) == 32
    ensures Max(19) == 15 && Max(285) == 255 && Max(16427) == 16383
    ensures Max(69643) == 65535 && Max(4299161607) == 4294967295
  {
    Powers();
    DegreeOf(19, 4);
    DegreeOf(285, 8);
    DegreeOf(16427, 14);
    DegreeOf(69643, 16);
    DegreeOf(4299161607, 32);
  }

  /**
    The constants of galois_field.swift:91, 99 and 107 are the polynomials truncated to the
    register width, which drops exactly the leading term x^bits.
  */
  lemma TruncatedPolynomials()
    ensures Low(285, 8) == 29 && Low(69643, 16) == 4107 && Low(4299161607, 32) == 4194311
  {
    Powers();
    LowTop(285, 8);
    LowTop(69643, 16);
    LowTop(4299161607, 32);
  }

  /**
    `Testbench<GF8, PP>.run()` (testbench.swift:300-325): generate the tables, compare every
    product, quotient and reciprocal with the reference field on w-bit registers, and destroy
    the tables. Every comparison holds.
  */
  method RunGF8(g: GF8.GF8, poly: nat, w: nat) returns (ok: bool)
    requires Primitive(poly) && Dim(poly) <= 8 && Dim(poly) <= w
    modifies g
    ensures ok && g.Count() == 0
  {
    g.Generate(poly);
    PrimitiveIrreducible(poly);
    var max := Max(poly);
    ok := true;
    for i := 0 to max + 1
      invariant ok && g.Valid() && g.poly == poly
    {
      for j := 0 to max + 1
        invariant ok && g.Valid() && g.poly == poly
      {
        var r := Reference.Mul(poly, w, i, j);
        ok := ok && g.Mul(i, j) == r;
      }
    }
    for i := 0 to max + 1
      invariant ok && g.Valid() && g.poly == poly
    {
      for j := 1 to max + 1
        invariant ok && g.Valid() && g.poly == poly
      {
        var r := Reference.Div(poly, w, i, j);
        QuotientUnique(poly, j, g.Reciprocal(j), g.Div(i, j), r);
        ok := ok && g.Div(i, j) == r;
      }
    }
    for j := 1 to max + 1
      invariant ok && g.Valid() && g.poly == poly
    {
      var r := Reference.Reciprocal(poly, w, j);
      InverseUnique(poly, j, g.Reciprocal(j), r);
      ok := ok && g.Reciprocal(j) == r;
    }
    g.Destroy();
  }

  /** `Testbench<GF16, PP>.run()` (testbench.swift:300-325) for the log/exp table field. */
  method RunGF16(g: GF16.GF16, poly: nat, w: nat) returns (ok: bool)
    requires Primitive(poly) && Dim(poly) <= 16 && Dim(poly) <= w
    modifies g
    ensures ok && g.Count() == 0
  {
    g.Generate(poly);
    PrimitiveIrreducible(poly);
    var max := Max(poly);
    ok := true;
    for i := 0 to max + 1
      invariant ok && g.Valid() && g.poly == poly
    {
      for j := 0 to max + 1
        invariant ok && g.Valid() && g.poly == poly
      {
        var r := Reference.Mul(poly, w, i, j);
        ok := ok && g.Mul(i, j) == r;
      }
    }
    for i := 0 to max + 1
      invariant ok && g.Valid() && g.poly == poly
    {
      for j := 1 to max + 1
        invariant ok && g.Valid() && g.poly == poly
      {
        var r := Reference.Div(poly, w, i, j);
        QuotientUnique(poly, j, g.Reciprocal(j), g.Div(i, j), r);
        ok := ok && g.Div(i, j) == r;
      }
    }
    for j := 1 to max + 1
      invariant ok && g.Valid() && g.poly == poly
    {
      var r := Reference.Reciprocal(poly, w, j);
      InverseUnique(poly, j, g.Reciprocal(j), r);
      ok := ok && g.Reciprocal(j) == r;
    }
    g.Destroy();
  }
}
