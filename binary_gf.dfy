/**
  The binary fields GF(2^d) as values of the field interface.

  For a primitive polynomial of degree d, the polynomials of degree below d with XOR as addition
  and the reduced product `MulMod` as multiplication satisfy every field law the coders rely on
  (`BinaryIsField`). The table fields GF8 and GF16 compute exactly these operations
  (`GF8Agrees`, `GF16Agrees`). The lookups of GF8 tables therefore form a field themselves
  (`TableField`, `TableFieldIsField`), and the Lagrange example of example.swift, which runs on
  them, gives its message back (`LagrangeExample`).
*/
module BinaryGF {
  import opened Bits
  import opened GF2Poly
  import opened Tables
  import opened Fields
  import GF8
  import GF16
  import Example

  /** a^e modulo poly, by repeated multiplication. */
  function PowElem(poly: nat, a: nat, e: nat): (r: nat)
    requires poly >= 2
    ensures r < Size(poly)
  {
    if e == 0 then 1
    else
      MulModBound(poly, PowElem(poly, a, e - 1), a);
      MulMod(poly, PowElem(poly, a, e - 1), a)
  }

  /** The product of two naturals is a natural. */
  function Product(a: nat, b: nat): (c: nat)
    ensures c == a * b
  {
    MulMonotone(a, 0, b);
    a * b
  }

  /** a (b - 1) + a == b a. */
  lemma OneMore(a: nat, b: nat)
    requires b >= 1
    ensures a + Product(a, b - 1) == Product(b, a) == Product(a, b)
  {
  }

  /** (x^i)^e == x^(i e). */
  lemma {:induction false} PowElemOfPow(poly: nat, i: nat, e: nat)
    requires poly >= 2
    ensures PowElem(poly, Pow(poly, i), e) == Pow(poly, Product(i, e))
  {
    if e > 0 {
      var j, x := Product(i, e - 1), Pow(poly, i);
      PowElemOfPow(poly, i, e - 1);
      assert PowElem(poly, x, e) == MulMod(poly, Pow(poly, j), x);
      PowAdd(poly, j, i);
      MulModComm(poly, Pow(poly, j), x);
      OneMore(i, e);
    }
  }

  /** x raised to a multiple of the group order is one. */
  lemma {:induction false} PowMultiple(poly: nat, k: nat)
    requires Primitive(poly)
    ensures Pow(poly, Product(Max(poly), k)) == 1
  {
    if k > 0 {
      var j := Product(Max(poly), k - 1);
      PowMultiple(poly, k - 1);
      PowPeriod(poly, j);
      OneMore(Max(poly), k);
    }
  }

  /** If a == x^l and x^(m l) == 1, then a times a^(m-1) is one. */
  lemma PowerInverts(poly: nat, a: nat, l: nat, m: nat)
    requires poly >= 2 && m >= 1 && Pow(poly, l) == a && Pow(poly, Product(m, l)) == 1
    ensures MulMod(poly, a, PowElem(poly, a, m - 1)) == 1
  {
    var j := Product(l, m - 1);
    var p := PowElem(poly, a, m - 1);
    PowElemOfPow(poly, l, m - 1);
    assert p == Pow(poly, j);
    PowAdd(poly, l, j);
    OneMore(l, m);
    assert l + j == Product(m, l);
  }

  /** a^(2^d - 2) inverts a nonzero a: a times it is a^(2^d - 1) == 1. */
  lemma RcpInverts(poly: nat, a: nat)
    requires poly >= 2
    ensures Primitive(poly) && 0 < a < Size(poly) ==> MulMod(poly, a, PowElem(poly, a, Max(poly) - 1)) == 1
  {
    if Primitive(poly) && 0 < a < Size(poly) {
      var l, m := Log(poly, a), Max(poly);
      PowMultiple(poly, l);
      PowerInverts(poly, a, l, m);
    }
  }

  /** The reciprocal as a value: a^(2^d - 2), whose product with a nonzero a is one. */
  function Rcp(poly: nat, a: nat): (r: nat)
    requires poly >= 2
    ensures r < Size(poly)
    ensures Primitive(poly) && 0 < a < Size(poly) ==> MulMod(poly, a, r) == 1
  {
    RcpInverts(poly, a);
    PowElem(poly, a, Max(poly) - 1)
  }

  /** GF(2)[x]/(poly) as a field value. Division multiplies by the reciprocal. */
  function GF(poly: nat): (F: Field)
    requires poly >= 2
    ensures F.count == Size(poly)
  {
    Field(Size(poly),
      (a: nat, b: nat) => Xor(a, b),
      (a: nat, b: nat) => Xor(a, b),
      (a: nat, b: nat) => if poly >= 2 then MulMod(poly, a, b) else 0,
      (a: nat, b: nat) => if poly >= 2 then MulMod(poly, a, Rcp(poly, b)) else 0,
      (a: nat) => if poly >= 2 then Rcp(poly, a) else 0)
  }

  // ---------------------------------------------------------------------------------------------
  // The laws

  lemma BinaryClosed(poly: nat)
    requires Primitive(poly)
    ensures Closed(GF(poly))
  {
    var F, d := GF(poly), Dim(poly);
    forall a: nat, b: nat | a < F.count && b < F.count
      ensures F.add(a, b) < F.count && F.sub(a, b) < F.count && F.mul(a, b) < F.count
    {
      XorBound(a, b, d);
      MulModBound(poly, a, b);
    }
    forall a: nat, b: nat | a < F.count && 0 < b < F.count
      ensures F.div(a, b) < F.count
    {
      MulModBound(poly, a, Rcp(poly, b));
    }
  }

  lemma BinaryAddLaws(poly: nat)
    requires Primitive(poly)
    ensures AddCommutes(GF(poly)) && AddAssociates(GF(poly)) && AddInverts(GF(poly))
  {
    var F := GF(poly);
    forall a: nat, b: nat | InField(F, a) && InField(F, b)
      ensures F.add(a, b) == F.add(b, a)
      ensures F.add(F.sub(a, b), b) == a && F.sub(F.add(a, b), b) == a
    {
      XorComm(a, b);
      XorCancel(a, b);
    }
    forall a: nat, b: nat, c: nat | InField(F, a) && InField(F, b) && InField(F, c)
      ensures F.add(F.add(a, b), c) == F.add(a, F.add(b, c))
    {
      XorAssoc(a, b, c);
    }
    forall a: nat | InField(F, a)
      ensures F.add(a, 0) == a
    {
      XorZero(a);
    }
  }

  lemma BinaryMulLaws(poly: nat)
    requires Primitive(poly)
    ensures MulCommutes(GF(poly)) && MulAssociates(GF(poly)) && MulDistributes(GF(poly))
  {
    var F := GF(poly);
    forall a: nat, b: nat | InField(F, a) && InField(F, b)
      ensures F.mul(a, b) == F.mul(b, a)
    {
      MulModComm(poly, a, b);
    }
    forall a: nat, b: nat, c: nat | InField(F, a) && InField(F, b) && InField(F, c)
      ensures F.mul(F.mul(a, b), c) == F.mul(a, F.mul(b, c))
      ensures F.mul(a, F.add(b, c)) == F.add(F.mul(a, b), F.mul(a, c))
    {
      MulModAssoc(poly, a, b, c);
      MulModXor(poly, a, b, c);
    }
  }

  lemma BinaryInverts(poly: nat)
    requires Primitive(poly)
    ensures MulInverts(GF(poly))
  {
    var F := GF(poly);
    forall a: nat | InField(F, a)
      ensures F.mul(a, 1) == a
    {
      MulModOne(poly, a);
    }
    forall a: nat, b: nat | InField(F, a) && InField(F, b) && b != 0
      ensures F.mul(F.div(a, b), b) == a
    {
      var r := Rcp(poly, b);
      MulModAssoc(poly, a, r, b);
      MulModComm(poly, r, b);
      MulModOne(poly, a);
    }
  }

  /** For a primitive poly, GF(2)[x]/(poly) is a field: the coders' proofs apply to it. */
  lemma BinaryIsField(poly: nat)
    requires Primitive(poly)
    ensures IsField(GF(poly))
  {
    BinaryClosed(poly);
    BinaryAddLaws(poly);
    BinaryMulLaws(poly);
    BinaryInverts(poly);
  }

  // ---------------------------------------------------------------------------------------------
  // The table fields compute these operations

  /** Every operation of generated GF8 tables is the operation of GF(poly) (Galois/gf8.swift:58-79). */
  lemma GF8Agrees(g: GF8.GF8, a: nat, b: nat)
    requires g.Valid() && a < g.Count() && b < g.Count()
    ensures GF(g.poly).count == g.Count()
    ensures g.Add(a, b) == GF(g.poly).add(a, b) && g.Sub(a, b) == GF(g.poly).sub(a, b)
    ensures g.Mul(a, b) == GF(g.poly).mul(a, b)
    ensures b != 0 ==> g.Reciprocal(b) == GF(g.poly).rcp(b) && g.Div(a, b) == GF(g.poly).div(a, b)
  {
    var poly := g.poly;
    if b != 0 {
      InverseUnique(poly, b, g.Reciprocal(b), Rcp(poly, b));
      MulModBound(poly, a, Rcp(poly, b));
      BinaryInverts(poly);
      assert InField(GF(poly), a) && InField(GF(poly), b);
      QuotientUnique(poly, b, Rcp(poly, b), g.Div(a, b), GF(poly).div(a, b));
    }
  }

  /** Every operation of generated GF16 tables is the operation of GF(poly) (Galois/gf16.swift:42-75). */
  lemma GF16Agrees(g: GF16.GF16, a: nat, b: nat)
    requires g.Valid() && a < g.Count() && b < g.Count()
    ensures GF(g.poly).count == g.Count()
    ensures g.Add(a, b) == GF(g.poly).add(a, b) && g.Sub(a, b) == GF(g.poly).sub(a, b)
    ensures g.Mul(a, b) == GF(g.poly).mul(a, b)
    ensures b != 0 ==> g.Reciprocal(b) == GF(g.poly).rcp(b) && g.Div(a, b) == GF(g.poly).div(a, b)
  {
    var poly := g.poly;
    if b != 0 {
      InverseUnique(poly, b, g.Reciprocal(b), Rcp(poly, b));
      MulModBound(poly, a, Rcp(poly, b));
      BinaryInverts(poly);
      assert InField(GF(poly), a) && InField(GF(poly), b);
      QuotientUnique(poly, b, Rcp(poly, b), g.Div(a, b), GF(poly).div(a, b));
    }
  }

  /**
    The field whose operations are the lookups of GF8 tables (Galois/gf8.swift:58-79): XOR for
    the sum and the difference, `mul[a][b]` for the product, `inv[a]` for the reciprocal and
    `mul[a][inv[b]]` for the quotient. Indices outside the tables, which no caller passes, give 0.
  */
  function TableField(mul: seq<seq<nat>>, inv: seq<nat>): (F: Field)
    ensures F.count == |mul|
  {
    Field(|mul|,
      (a: nat, b: nat) => Xor(a, b),
      (a: nat, b: nat) => Xor(a, b),
      (a: nat, b: nat) => if a < |mul| && b < |mul[a]| then mul[a][b] else 0,
      (a: nat, b: nat) => if a < |mul| && b < |inv| && inv[b] < |mul[a]| then mul[a][inv[b]] else 0,
      (a: nat) => if a < |inv| then inv[a] else 0)
  }

  /** The lookups of generated GF8 tables are the operations of GF(poly), so they form a field. */
  lemma TableFieldIsField(g: GF8.GF8)
    requires g.Valid()
    ensures Agree(TableField(g.mul, g.inv), GF(g.poly))
    ensures IsField(TableField(g.mul, g.inv))
  {
    var F, G := TableField(g.mul, g.inv), GF(g.poly);
    forall a: nat, b: nat | a < F.count && b < F.count
      ensures F.add(a, b) == G.add(a, b) && F.sub(a, b) == G.sub(a, b) && F.mul(a, b) == G.mul(a, b)
      ensures b != 0 ==> F.div(a, b) == G.div(a, b) && F.rcp(b) == G.rcp(b)
    {
      GF8Agrees(g, a, b);
      assert F.mul(a, b) == g.Mul(a, b);
      if b != 0 {
        assert F.rcp(b) == g.Reciprocal(b);
        assert F.div(a, b) == g.Div(a, b);
      }
    }
    forall a: nat | 0 < a < F.count
      ensures F.rcp(a) == G.rcp(a)
    {
      GF8Agrees(g, 0, a);
    }
    BinaryIsField(g.poly);
    AgreeIsField(F, G);
  }

  /**
    The example as configured in example.swift:24-66: with the GF8 tables generated for a
    primitive polynomial (285 there), a message of K = 7 symbols is encoded into N = 29 by
    interpolation with the table lookups, and any 7 of the code symbols give it back.
  */
  method LagrangeExample(g: GF8.GF8, symbols: seq<nat>, picks: seq<nat>)
    returns (recv_mesg: seq<nat>)
    requires g.Valid() && g.Count() >= 29
    requires |symbols| == 7 && forall i :: 0 <= i < 7 ==> symbols[i] < g.Count()
    requires |picks| == 7 && Example.Picks(picks, 29)
    ensures recv_mesg == symbols
  {
    var F := TableField(g.mul, g.inv);
    TableFieldIsField(g);
    recv_mesg := Example.Run(F, symbols, 29, picks);
  }
}
