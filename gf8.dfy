/**
  The 8-bit table field GF8 (Galois/gf8.swift).

  The library keeps the full multiplication table `mul` and the reciprocal table `inv` in
  process-wide arrays; here they are the fields of a `GF8` object. `Generate` fills them from
  the log and exp tables of a primitive polynomial of degree at most 8, `Destroy` empties them,
  and every operation is a lookup. Each lookup is proved to agree with the reference product
  `MulMod`.
*/
module GF8 {
  import opened Bits
  import opened GF2Poly
  import opened Tables

  /** mul is the multiplication table of GF(2)[x]/(poly). */
  ghost predicate MulTable(poly: nat, mul: seq<seq<nat>>)
    requires poly >= 2
  {
    && |mul| == Size(poly)
    && (forall a: nat :: a < Size(poly) ==> |mul[a]| == Size(poly))
    && (forall a: nat, b: nat :: a < Size(poly) && b < Size(poly) ==> mul[a][b] == MulMod(poly, a, b))
  }

  /** inv maps 0 to 0, 1 to 1 and every other element to its inverse. */
  ghost predicate InvTable(poly: nat, inv: seq<nat>)
    requires poly >= 2
  {
    && |inv| == Size(poly) && inv[0] == 0 && inv[1] == 1
    && (forall a: nat :: 0 < a < Size(poly) ==> inv[a] < Size(poly) && MulMod(poly, a, inv[a]) == 1)
  }

  /** One row of the multiplication table, built as gf8.swift:39-45 does. */
  method MulRow(poly: nat, log: seq<nat>, exp: seq<nat>, a: nat) returns (row: seq<nat>)
    requires Primitive(poly) && LogExp(poly, log, exp) && a < Size(poly)
    ensures |row| == Size(poly)
    ensures forall b: nat :: b < Size(poly) ==> row[b] == MulMod(poly, a, b)
  {
    var size := Size(poly);
    var max := size - 1;
    row := [];
    for b := 0 to size
      invariant |row| == b
      invariant forall c: nat :: c < b ==> row[c] == MulMod(poly, a, c)
    {
      var entry := if a == 0 || b == 0 then 0 else exp[(log[a] + log[b]) % max];
      assert entry == TableMul(poly, log, exp, a, b);
      TableMulCorrect(poly, log, exp, a, b);
      row := row + [entry];
    }
  }

  /** The reciprocal table, built as gf8.swift:47-52 does. */
  method InvTableOf(poly: nat, log: seq<nat>, exp: seq<nat>) returns (inv: seq<nat>)
    requires Primitive(poly) && LogExp(poly, log, exp)
    ensures InvTable(poly, inv)
  {
    var size := Size(poly);
    var max := size - 1;
    inv := seq(size, _ => 0);
    inv := inv[0 := 0];
    inv := inv[1 := 1];
    MulModOne(poly, 1);
    for a := 2 to size
      invariant |inv| == size && inv[0] == 0 && inv[1] == 1
      invariant forall c: nat :: 0 < c < a ==> inv[c] < size && MulMod(poly, c, inv[c]) == 1
    {
      TableReciprocalCorrect(poly, log, exp, a);
      inv := inv[a := exp[max - log[a]]];
    }
  }

  class GF8 {
    /** The multiplication table (gf8.swift:10). */
    var mul: seq<seq<nat>>
    /** The reciprocal table (gf8.swift:11). */
    var inv: seq<nat>
    /** The polynomial the tables were generated from. */
    ghost var poly: nat

    /** The tables hold the arithmetic of GF(2)[x]/(poly) for a primitive poly of degree <= 8. */
    ghost predicate Valid()
      reads this
    {
      Primitive(poly) && Dim(poly) <= 8 && MulTable(poly, mul) && InvTable(poly, inv)
    }

    /** Before generation both tables are empty. */
    constructor()
      ensures mul == [] && inv == []
    {
      mul, inv := [], [];
      poly := 0;
    }

    /** The number of elements is the number of rows of mul (gf8.swift:13-15). */
    function Count(): (n: nat)
      reads this
      ensures Valid() ==> n == Size(poly)
    {
      |mul|
    }

    /**
      Generates the tables for a primitive polynomial of degree at most 8 (gf8.swift:16-53). The
      log and exp tables are local to the generation.
    */
    method Generate(p: nat)
      requires Primitive(p) && Dim(p) <= 8
      modifies this
      ensures poly == p && Valid()
      ensures Count() == Size(p)
    {
      var log, exp := Tables.Generate(p, 8);
      var size := Size(p);
      var m: seq<seq<nat>> := [];
      for a := 0 to size
        invariant |m| == a
        invariant forall c: nat :: c < a ==> |m[c]| == size
        invariant forall c: nat, b: nat :: c < a && b < size ==> m[c][b] == MulMod(p, c, b)
      {
        var row := MulRow(p, log, exp, a);
        m := m + [row];
      }
      var iv := InvTableOf(p, log, exp);
      mul, inv, poly := m, iv, p;
    }

    /** Releases the tables (gf8.swift:54-57): afterwards there are no elements. */
    method Destroy()
      modifies this
      ensures mul == [] && inv == [] && Count() == 0
    {
      mul, inv := [], [];
    }

    /** Addition is XOR (gf8.swift:58-61); the sum is again an element. */
    function Add(a: nat, b: nat): (r: nat)
      reads this
      requires Valid() && a < Count() && b < Count()
      ensures r < Count()
    {
      XorBound(a, b, Dim(poly));
      Xor(a, b)
    }

    /** Subtraction is addition (gf8.swift:62-65), so it undoes an addition. */
    function Sub(a: nat, b: nat): (r: nat)
      reads this
      requires Valid() && a < Count() && b < Count()
      ensures r < Count() && Add(r, b) == a
    {
      XorCancel(a, b);
      Add(a, b)
    }

    /** The product is the table entry (gf8.swift:66-69), which is the reference product. */
    function Mul(a: nat, b: nat): (r: nat)
      reads this
      requires Valid() && a < Count() && b < Count()
      ensures r < Count() && r == MulMod(poly, a, b)
    {
      MulModBound(poly, a, b);
      mul[a][b]
    }

    /** The reciprocal of a nonzero element (gf8.swift:70-74): its product with a is one. */
    function Reciprocal(a: nat): (r: nat)
      reads this
      requires Valid() && 0 < a < Count()
      ensures r < Count() && MulMod(poly, a, r) == 1
      ensures a == 1 ==> r == 1
    {
      inv[a]
    }

    /** Division by a nonzero element multiplies by its reciprocal (gf8.swift:75-79). */
    function Div(a: nat, b: nat): (r: nat)
      reads this
      requires Valid() && a < Count() && 0 < b < Count()
      ensures r < Count() && MulMod(poly, r, b) == a
    {
      var c := Reciprocal(b);
      MulModAssoc(poly, a, c, b);
      MulModComm(poly, c, b);
      MulModOne(poly, a);
      Mul(a, c)
    }
  }

  /** The multiplication table is symmetric (gf8.swift:37-46). */
  lemma MulSymmetric(g: GF8, a: nat, b: nat)
    requires g.Valid() && a < g.Count() && b < g.Count()
    ensures g.Mul(a, b) == g.Mul(b, a)
  {
    MulModComm(g.poly, a, b);
  }
}
