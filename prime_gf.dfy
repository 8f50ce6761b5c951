/**
  The prime field of Galois/prime.swift as a value of the field interface.

  For a prime p the residues modulo p, with the sum, difference, product and reciprocal of
  `Prime`, satisfy every field law the coders rely on (`PrimeIsField`). With it the Cauchy
  example can be run on the field cauchy.swift selects: GF(257), K = 7 message symbols and
  N = 29 candidate rows (`CauchyExample`).
*/
module PrimeGF {
  import opened Bits
  import opened Prime
  import opened Fields
  import Cauchy
  import Example
  import CauchyRun

  /**
    GF(p) as a field value. Arguments outside the field, which no caller passes, give 0.
    Division multiplies by the reciprocal, as the other fields of the library do.
  */
  function GF(p: nat): (F: Field)
    ensures F.count == p
  {
    Field(p,
      (a: nat, b: nat) => if a < p && b < p then Add(p, a, b) else 0,
      (a: nat, b: nat) => if a < p && b < p then Sub(p, a, b) else 0,
      (a: nat, b: nat) => if a < p && b < p then Mul(p, a, b) else 0,
      (a: nat, b: nat) => if a < p && 0 < b < p then Mul(p, a, Rcp(p, b)) else 0,
      (a: nat) => if 0 < a < p then Rcp(p, a) else 0)
  }

  // ---------------------------------------------------------------------------------------------
  // Arithmetic modulo p

  /** Adding a multiple of p does not change the residue. */
  lemma ModShift(p: nat, x: int, k: int)
    requires p > 0 && x >= 0 && x + k * p >= 0
    ensures (x + k * p) % p == x % p
  {
    assert x == x / p * p + x % p;
    assert x + k * p == (x / p + k) * p + x % p;
    ResidueUnique(p, x + k * p, x / p + k, x % p);
  }

  /** Reducing a factor first does not change the residue of a product. */
  lemma ModMul(p: nat, x: nat, y: nat)
    requires p > 0
    ensures (x % p * y) % p == (x * y) % p
  {
    var q, r := x / p, x % p;
    assert x == q * p + r;
    assert x * y == r * y + (q * y) * p;
    ModShift(p, r * y, q * y);
  }

  /** Reducing the terms first does not change the residue of a sum. */
  lemma ModAdd(p: nat, x: nat, y: nat)
    requires p > 0
    ensures (x % p + y % p) % p == (x + y) % p
  {
    assert x == x / p * p + x % p;
    assert y == y / p * p + y % p;
    assert x + y == x % p + y % p + (x / p + y / p) * p;
    ModShift(p, x % p + y % p, x / p + y / p);
  }

  /** A residue is its own reduction. */
  lemma ModSmall(p: nat, x: nat)
    requires x < p
    ensures x % p == x
  {
    DivModUnique(x, p, 0, x);
  }

  /** The product of Prime is the residue of the integer product. */
  lemma MulIsMod(p: nat, a: nat, b: nat)
    requires a < p && b < p
    ensures Mul(p, a, b) == (a * b) % p
  {
  }

  /** (a b) c == (b c) a. */
  lemma Rotate(a: nat, b: nat, c: nat)
    ensures (a * b) * c == (b * c) * a
  {
  }

  lemma MulAssocMod(p: nat, a: nat, b: nat, c: nat)
    requires a < p && b < p && c < p
    ensures Mul(p, Mul(p, a, b), c) == Mul(p, a, Mul(p, b, c))
  {
    var ab, bc := a * b, b * c;
    var x, y := Mul(p, a, b), Mul(p, b, c);
    MulIsMod(p, a, b);
    MulIsMod(p, b, c);
    MulIsMod(p, x, c);
    MulIsMod(p, a, y);
    ModMul(p, ab, c);
    ModMul(p, bc, a);
    Rotate(a, b, c);
    assert Mul(p, x, c) == (ab * c) % p;
    assert a * y == y * a;
    assert Mul(p, a, y) == (bc * a) % p;
  }

  lemma DistribMod(p: nat, a: nat, b: nat, c: nat)
    requires a < p && b < p && c < p
    ensures Mul(p, a, Add(p, b, c)) == Add(p, Mul(p, a, b), Mul(p, a, c))
  {
    var s := Add(p, b, c);
    ModMul(p, b + c, a);
    ModSmall(p, a);
    assert s == (b + c) % p;
    assert Mul(p, a, s) == (s * a) % p;
    assert (b + c) * a == a * b + a * c;
    ModAdd(p, a * b, a * c);
  }

  // ---------------------------------------------------------------------------------------------
  // The laws

  lemma GFClosed(p: nat)
    requires IsPrime(p)
    ensures Closed(GF(p))
  {
  }

  lemma GFAddCommutes(p: nat)
    requires IsPrime(p)
    ensures AddCommutes(GF(p))
  {
    var F := GF(p);
    forall a: nat, b: nat | InField(F, a) && InField(F, b)
      ensures F.add(a, b) == F.add(b, a)
    {
      assert F.add(a, b) == Add(p, a, b) && F.add(b, a) == Add(p, b, a);
    }
  }

  lemma GFAddAssociates(p: nat)
    requires IsPrime(p)
    ensures AddAssociates(GF(p))
  {
    var F := GF(p);
    forall a: nat, b: nat, c: nat | InField(F, a) && InField(F, b) && InField(F, c)
      ensures F.add(F.add(a, b), c) == F.add(a, F.add(b, c))
    {
      var x, y := Add(p, a, b), Add(p, b, c);
      assert F.add(F.add(a, b), c) == Add(p, x, c);
      assert F.add(a, F.add(b, c)) == Add(p, a, y);
    }
  }

  lemma GFAddInverts(p: nat)
    requires IsPrime(p)
    ensures AddInverts(GF(p))
  {
    var F := GF(p);
    forall a: nat | InField(F, a)
      ensures F.add(a, 0) == a
    {
      assert F.add(a, 0) == Add(p, a, 0);
    }
    forall a: nat, b: nat | InField(F, a) && InField(F, b)
      ensures F.add(F.sub(a, b), b) == a && F.sub(F.add(a, b), b) == a
    {
      var d, s := Sub(p, a, b), Add(p, a, b);
      assert F.add(F.sub(a, b), b) == Add(p, d, b);
      assert F.sub(F.add(a, b), b) == Sub(p, s, b);
      SubAdd(p, a, b);
    }
  }

  lemma GFMulLaws(p: nat)
    requires IsPrime(p)
    ensures MulCommutes(GF(p)) && MulAssociates(GF(p))
  {
    var F := GF(p);
    forall a: nat, b: nat | InField(F, a) && InField(F, b)
      ensures F.mul(a, b) == F.mul(b, a)
    {
      Prime.MulComm(p, a, b);
    }
    forall a: nat, b: nat, c: nat | InField(F, a) && InField(F, b) && InField(F, c)
      ensures F.mul(F.mul(a, b), c) == F.mul(a, F.mul(b, c))
    {
      MulAssocMod(p, a, b, c);
    }
  }

  lemma GFDistrib(p: nat)
    requires IsPrime(p)
    ensures MulDistributes(GF(p))
  {
    var F := GF(p);
    forall a: nat, b: nat, c: nat | InField(F, a) && InField(F, b) && InField(F, c)
      ensures F.mul(a, F.add(b, c)) == F.add(F.mul(a, b), F.mul(a, c))
    {
      DistribMod(p, a, b, c);
    }
  }

  lemma GFInverts(p: nat)
    requires IsPrime(p)
    ensures MulInverts(GF(p))
  {
    var F := GF(p);
    forall a: nat | InField(F, a)
      ensures F.mul(a, 1) == a
    {
      Prime.MulOne(p, a);
    }
    forall a: nat, b: nat | InField(F, a) && InField(F, b) && b != 0
      ensures F.mul(F.div(a, b), b) == a
    {
      var r := Rcp(p, b);
      MulAssocMod(p, a, r, b);
      Prime.MulComm(p, r, b);
      Prime.MulOne(p, a);
    }
  }

  /** For a prime p, GF(p) is a field: the coders' proofs apply to it. */
  lemma PrimeIsField(p: nat)
    requires IsPrime(p)
    ensures IsField(GF(p))
  {
    GFClosed(p);
    GFAddCommutes(p);
    GFAddAssociates(p);
    GFAddInverts(p);
    GFMulLaws(p);
    GFDistrib(p);
    GFInverts(p);
  }

  // ---------------------------------------------------------------------------------------------
  // The configuration of cauchy.swift

  /** No number between 1 and 257 divides 257. */
  lemma NotProduct(a: nat, b: nat)
    requires 1 < a < 257
    ensures a * b != 257
  {
    if b < 2 {
      MulMonotone(a, b, 1);
    } else if a < 17 {
      assert a == 2 || a == 3 || a == 4 || a == 5 || a == 6 || a == 7 || a == 8 || a == 9
        || a == 10 || a == 11 || a == 12 || a == 13 || a == 14 || a == 15 || a == 16;
    } else if b < 17 {
      assert b == 2 || b == 3 || b == 4 || b == 5 || b == 6 || b == 7 || b == 8 || b == 9
        || b == 10 || b == 11 || b == 12 || b == 13 || b == 14 || b == 15 || b == 16;
    } else {
      MulMonotone(a, 17, b);
      MulMonotone(17, 17, a);
    }
  }

  /** 257, the modulus of the example (cauchy.swift:45-48), is prime. */
  lemma Prime257()
    ensures IsPrime(257)
  {
    forall a: nat | 1 < a < 257
      ensures !IntDivides(a, 257)
    {
      forall b: nat
        ensures a * b != 257
      {
        NotProduct(a, b);
      }
    }
  }

  /**
    The candidate rows K .. K+N-1 of GF(p) are admissible: a row plus a column below K is never
    zero as long as the largest such sum, (K + N - 1) + (K - 1), stays below p.
  */
  lemma RowsAdmissible(p: nat, k: nat, n: nat)
    requires IsPrime(p) && k + n <= p && 2 * k + n <= p + 1
    ensures Cauchy.Admissible(GF(p), CauchyRun.CandidateRows(GF(p), k, n), k)
  {
    var F := GF(p);
    var rows := CauchyRun.CandidateRows(F, k, n);
    forall q, j | 0 <= q < |rows| && 0 <= j < k
      ensures F.add(rows[q], j) != 0
    {
      assert rows[q] == k + q;
    }
  }

  /**
    The example as configured in cauchy.swift:45-90: over GF(257), a message of K = 7 symbols is
    encoded for 7 distinct rows among the N = 29 candidates and decoded back to itself.
  */
  method CauchyExample(symbols: seq<nat>, picks: seq<nat>) returns (recv_mesg: seq<nat>)
    requires |symbols| == 7 && forall i :: 0 <= i < 7 ==> symbols[i] < 257
    requires |picks| == 7 && Example.Picks(picks, 29)
    ensures recv_mesg == symbols
  {
    var F := GF(257);
    Prime257();
    PrimeIsField(257);
    RowsAdmissible(257, 7, 29);
    recv_mesg := CauchyRun.Run(F, symbols, 29, picks);
  }
}
