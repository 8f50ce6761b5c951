/**
  The field interface the coders are written against (the GaloisField protocol of
  Galois/protocols.swift).

  A field is given by its number of elements and its operations; the elements are the naturals
  below `count`, `zero` is 0 and `one` is 1. `IsField` lists the field laws the coders rely on.
  The closure laws apply to every operation that appears; the algebraic laws are instantiated
  only for the elements a proof names with `InField`, through the lemmas below, so that the
  laws never rewrite each other without end.
*/
module Fields {

  datatype Field = Field(
    count: nat,
    add: (nat, nat) -> nat,
    sub: (nat, nat) -> nat,
    mul: (nat, nat) -> nat,
    div: (nat, nat) -> nat,
    rcp: nat -> nat)

  /** a is an element of F. */
  ghost predicate InField(F: Field, a: nat)
  {
    a < F.count
  }

  /** Every entry of s is an element of F. */
  ghost predicate Elements(F: Field, s: seq<nat>)
  {
    forall k :: 0 <= k < |s| ==> s[k] < F.count
  }

  // The field laws, one predicate each.

  ghost predicate Closed(F: Field)
  {
    && (forall a: nat, b: nat {:trigger F.add(a, b)} :: a < F.count && b < F.count ==> F.add(a, b) < F.count)
    && (forall a: nat, b: nat {:trigger F.sub(a, b)} :: a < F.count && b < F.count ==> F.sub(a, b) < F.count)
    && (forall a: nat, b: nat {:trigger F.mul(a, b)} :: a < F.count && b < F.count ==> F.mul(a, b) < F.count)
    && (forall a: nat, b: nat {:trigger F.div(a, b)} :: a < F.count && 0 < b < F.count ==> F.div(a, b) < F.count)
    && (forall a: nat {:trigger F.rcp(a)} :: 0 < a < F.count ==> F.rcp(a) < F.count)
  }

  ghost predicate AddCommutes(F: Field)
  {
    forall a: nat, b: nat {:trigger InField(F, a), InField(F, b)} :: InField(F, a) && InField(F, b) ==>
      F.add(a, b) == F.add(b, a)
  }

  ghost predicate AddAssociates(F: Field)
  {
    forall a: nat, b: nat, c: nat {:trigger InField(F, a), InField(F, b), InField(F, c)} ::
      InField(F, a) && InField(F, b) && InField(F, c) ==> F.add(F.add(a, b), c) == F.add(a, F.add(b, c))
  }

  /** 0 is neutral for addition, and subtraction undoes addition. */
  ghost predicate AddInverts(F: Field)
  {
    && (forall a: nat {:trigger InField(F, a)} :: InField(F, a) ==> F.add(a, 0) == a)
    && (forall a: nat, b: nat {:trigger InField(F, a), InField(F, b)} :: InField(F, a) && InField(F, b) ==>
          F.add(F.sub(a, b), b) == a && F.sub(F.add(a, b), b) == a)
  }

  ghost predicate MulCommutes(F: Field)
  {
    forall a: nat, b: nat {:trigger InField(F, a), InField(F, b)} :: InField(F, a) && InField(F, b) ==>
      F.mul(a, b) == F.mul(b, a)
  }

  ghost predicate MulAssociates(F: Field)
  {
    forall a: nat, b: nat, c: nat {:trigger InField(F, a), InField(F, b), InField(F, c)} ::
      InField(F, a) && InField(F, b) && InField(F, c) ==> F.mul(F.mul(a, b), c) == F.mul(a, F.mul(b, c))
  }

  ghost predicate MulDistributes(F: Field)
  {
    forall a: nat, b: nat, c: nat {:trigger InField(F, a), InField(F, b), InField(F, c)} ::
      InField(F, a) && InField(F, b) && InField(F, c) ==> F.mul(a, F.add(b, c)) == F.add(F.mul(a, b), F.mul(a, c))
  }

  /** 1 is neutral for multiplication, nonzero elements have reciprocals, division is exact. */
  ghost predicate MulInverts(F: Field)
  {
    && (forall a: nat {:trigger InField(F, a)} :: InField(F, a) ==> F.mul(a, 1) == a)
    && (forall a: nat {:trigger InField(F, a)} :: InField(F, a) && a != 0 ==> F.mul(a, F.rcp(a)) == 1)
    && (forall a: nat, b: nat {:trigger InField(F, a), InField(F, b)} :: InField(F, a) && InField(F, b) && b != 0 ==>
          F.mul(F.div(a, b), b) == a)
  }

  /** F is a field: at least two elements, and all the laws. */
  ghost predicate IsField(F: Field)
  {
    && F.count >= 2 && Closed(F)
    && AddCommutes(F) && AddAssociates(F) && AddInverts(F)
    && MulCommutes(F) && MulAssociates(F) && MulDistributes(F) && MulInverts(F)
  }

  /** `zero` is the element 0 (protocols.swift:22-25): adding it changes nothing. */
  function Zero(F: Field): (z: nat)
    requires IsField(F)
    ensures z < F.count && forall a: nat :: a < F.count ==> F.add(a, z) == a && F.mul(a, z) == 0
  {
    forall a: nat | a < F.count
      ensures F.add(a, 0) == a && F.mul(a, 0) == 0
    {
      AddZero(F, a);
      MulZero(F, a);
    }
    0
  }

  /** `one` is the element 1 (protocols.swift:26-29): multiplying by it changes nothing. */
  function One(F: Field): (o: nat)
    requires IsField(F)
    ensures o < F.count && o != Zero(F) && forall a: nat :: a < F.count ==> F.mul(a, o) == a
  {
    forall a: nat | a < F.count
      ensures F.mul(a, 1) == a
    {
      MulOne(F, a);
    }
    1
  }

  /** The range-checked conversion from an integer (protocols.swift:42-46). */
  function FromInt(F: Field, value: int): (r: nat)
    requires 0 <= value < F.count
    ensures r < F.count && r as int == value
  {
    value
  }

  /** x *= y rebinds x to x * y (protocols.swift:30-33); dividing by a nonzero y undoes it. */
  method MulAssign(F: Field, x: nat, y: nat) returns (x': nat)
    requires IsField(F) && x < F.count && y < F.count
    ensures x' < F.count && x' == F.mul(x, y)
    ensures y != 0 ==> F.div(x', y) == x
  {
    x' := F.mul(x, y);
    if y != 0 {
      DivMul(F, x, y);
    }
  }

  /** x += y rebinds x to x + y (galois_field.swift:22-24); subtracting y undoes it. */
  method AddAssign(F: Field, x: nat, y: nat) returns (x': nat)
    requires IsField(F) && x < F.count && y < F.count
    ensures x' < F.count && x' == F.add(x, y) && F.sub(x', y) == x
  {
    x' := F.add(x, y);
    AddSub(F, x, y);
  }

  /** x /= y rebinds x to x / y for a nonzero y (protocols.swift:34-37); multiplying by y undoes it. */
  method DivAssign(F: Field, x: nat, y: nat) returns (x': nat)
    requires IsField(F) && x < F.count && 0 < y < F.count
    ensures x' < F.count && x' == F.div(x, y) && F.mul(x', y) == x
  {
    x' := F.div(x, y);
    DivExact(F, x, y);
  }

  // ---------------------------------------------------------------------------------------------
  // The laws, one instance at a time

  lemma AddComm(F: Field, a: nat, b: nat)
    requires IsField(F) && a < F.count && b < F.count
    ensures F.add(a, b) == F.add(b, a)
  {
    assert InField(F, a) && InField(F, b);
  }

  lemma AddAssoc(F: Field, a: nat, b: nat, c: nat)
    requires IsField(F) && a < F.count && b < F.count && c < F.count
    ensures F.add(F.add(a, b), c) == F.add(a, F.add(b, c))
  {
    assert InField(F, a) && InField(F, b) && InField(F, c);
  }

  lemma AddZero(F: Field, a: nat)
    requires IsField(F) && a < F.count
    ensures F.add(a, 0) == a && F.add(0, a) == a
  {
    assert InField(F, a) && InField(F, 0);
  }

  /** Subtraction and addition undo each other. */
  lemma AddSub(F: Field, a: nat, b: nat)
    requires IsField(F) && a < F.count && b < F.count
    ensures F.add(F.sub(a, b), b) == a && F.sub(F.add(a, b), b) == a
  {
    assert InField(F, a) && InField(F, b);
  }

  lemma MulComm(F: Field, a: nat, b: nat)
    requires IsField(F) && a < F.count && b < F.count
    ensures F.mul(a, b) == F.mul(b, a)
  {
    assert InField(F, a) && InField(F, b);
  }

  lemma MulAssoc(F: Field, a: nat, b: nat, c: nat)
    requires IsField(F) && a < F.count && b < F.count && c < F.count
    ensures F.mul(F.mul(a, b), c) == F.mul(a, F.mul(b, c))
  {
    assert InField(F, a) && InField(F, b) && InField(F, c);
  }

  lemma MulOne(F: Field, a: nat)
    requires IsField(F) && a < F.count
    ensures F.mul(a, 1) == a && F.mul(1, a) == a
  {
    assert InField(F, a) && InField(F, 1);
  }

  lemma Distrib(F: Field, a: nat, b: nat, c: nat)
    requires IsField(F) && a < F.count && b < F.count && c < F.count
    ensures F.mul(a, F.add(b, c)) == F.add(F.mul(a, b), F.mul(a, c))
  {
    assert InField(F, a) && InField(F, b) && InField(F, c);
  }

  lemma MulRcp(F: Field, a: nat)
    requires IsField(F) && 0 < a < F.count
    ensures F.rcp(a) < F.count && F.mul(a, F.rcp(a)) == 1
  {
    assert InField(F, a);
  }

  lemma DivExact(F: Field, a: nat, b: nat)
    requires IsField(F) && a < F.count && 0 < b < F.count
    ensures F.div(a, b) < F.count && F.mul(F.div(a, b), b) == a
  {
    assert InField(F, a) && InField(F, b);
  }

  // ---------------------------------------------------------------------------------------------
  // Consequences of the laws

  /** Addition can be cancelled. */
  lemma AddCancel(F: Field, a: nat, b: nat, c: nat)
    requires IsField(F) && a < F.count && b < F.count && c < F.count
    requires F.add(a, c) == F.add(b, c)
    ensures a == b
  {
    AddSub(F, a, c);
    AddSub(F, b, c);
  }

  /** a - b is zero exactly when a and b are equal. */
  lemma SubZero(F: Field, a: nat, b: nat)
    requires IsField(F) && a < F.count && b < F.count
    ensures F.sub(a, b) == 0 <==> a == b
  {
    AddZero(F, b);
    AddSub(F, a, b);
    AddSub(F, 0, b);
  }

  /** Multiplication by zero gives zero. */
  lemma MulZero(F: Field, a: nat)
    requires IsField(F) && a < F.count
    ensures F.mul(a, 0) == 0 && F.mul(0, a) == 0
  {
    var z := F.mul(a, 0);
    AddZero(F, 0);
    Distrib(F, a, 0, 0);
    AddZero(F, z);
    AddCancel(F, 0, z, z);
    MulComm(F, a, 0);
  }

  /** Multiplication by a nonzero element can be cancelled. */
  lemma MulCancel(F: Field, a: nat, b: nat, d: nat)
    requires IsField(F) && a < F.count && b < F.count && 0 < d < F.count
    requires F.mul(a, d) == F.mul(b, d)
    ensures a == b
  {
    var r := F.rcp(d);
    MulRcp(F, d);
    MulAssoc(F, a, d, r);
    MulAssoc(F, b, d, r);
    MulOne(F, a);
    MulOne(F, b);
  }

  /** A product of nonzero elements is nonzero. */
  lemma MulNonzero(F: Field, a: nat, b: nat)
    requires IsField(F) && 0 < a < F.count && 0 < b < F.count
    ensures F.mul(a, b) != 0
  {
    MulZero(F, b);
    if F.mul(a, b) == 0 {
      MulCancel(F, a, 0, b);
    }
  }

  /** A product is zero exactly when a factor is zero. */
  lemma MulZeroIff(F: Field, a: nat, b: nat)
    requires IsField(F) && a < F.count && b < F.count
    ensures F.mul(a, b) == 0 <==> a == 0 || b == 0
  {
    MulZero(F, a);
    MulZero(F, b);
    if a != 0 && b != 0 {
      MulNonzero(F, a, b);
    }
  }

  /** Division undoes multiplication. */
  lemma DivMul(F: Field, a: nat, d: nat)
    requires IsField(F) && a < F.count && 0 < d < F.count
    ensures F.div(F.mul(a, d), d) == a
  {
    var q := F.div(F.mul(a, d), d);
    DivExact(F, F.mul(a, d), d);
    MulCancel(F, q, a, d);
  }

  /** Zero divided by anything nonzero is zero. */
  lemma DivZero(F: Field, d: nat)
    requires IsField(F) && 0 < d < F.count
    ensures F.div(0, d) == 0
  {
    MulZero(F, d);
    DivMul(F, 0, d);
  }

  /** Division is multiplication by the reciprocal. */
  lemma DivIsMulRcp(F: Field, a: nat, d: nat)
    requires IsField(F) && a < F.count && 0 < d < F.count
    ensures F.div(a, d) == F.mul(a, F.rcp(d))
  {
    var r := F.rcp(d);
    var m := F.mul(a, r);
    MulRcp(F, d);
    DivExact(F, a, d);
    MulAssoc(F, a, r, d);
    MulComm(F, r, d);
    MulOne(F, a);
    MulCancel(F, F.div(a, d), m, d);
  }

  /** The middle terms of a sum of two sums can be swapped. */
  lemma AddSwap(F: Field, a: nat, b: nat, c: nat, d: nat)
    requires IsField(F) && a < F.count && b < F.count && c < F.count && d < F.count
    ensures F.add(F.add(a, b), F.add(c, d)) == F.add(F.add(a, c), F.add(b, d))
  {
    AddAssoc(F, a, b, F.add(c, d));
    AddAssoc(F, b, c, d);
    AddComm(F, b, c);
    AddAssoc(F, c, b, d);
    AddAssoc(F, a, c, F.add(b, d));
  }

  /** A factor can be moved across a product. */
  lemma MulSwap(F: Field, a: nat, b: nat, c: nat)
    requires IsField(F) && a < F.count && b < F.count && c < F.count
    ensures F.mul(a, F.mul(b, c)) == F.mul(b, F.mul(a, c))
  {
    MulAssoc(F, a, b, c);
    MulComm(F, a, b);
    MulAssoc(F, b, a, c);
  }

  /** Multiplication distributes over addition from the right as well. */
  lemma DistribRight(F: Field, a: nat, b: nat, c: nat)
    requires IsField(F) && a < F.count && b < F.count && c < F.count
    ensures F.mul(F.add(a, b), c) == F.add(F.mul(a, c), F.mul(b, c))
  {
    Distrib(F, c, a, b);
    MulComm(F, F.add(a, b), c);
    MulComm(F, a, c);
    MulComm(F, b, c);
  }

  /** Subtracting y is adding its negative 0 - y. */
  lemma SubIsAddNeg(F: Field, x: nat, y: nat)
    requires IsField(F) && x < F.count && y < F.count
    ensures F.add(x, F.sub(0, y)) == F.sub(x, y)
  {
    var n := F.sub(0, y);
    AddSub(F, 0, y);
    AddAssoc(F, x, n, y);
    AddZero(F, x);
    AddSub(F, x, y);
    AddCancel(F, F.add(x, n), F.sub(x, y), y);
  }

  /** Multiplying by the negative of one negates. */
  lemma MulNegOne(F: Field, y: nat)
    requires IsField(F) && y < F.count
    ensures F.mul(F.sub(0, 1), y) == F.sub(0, y)
  {
    var m := F.sub(0, 1);
    AddSub(F, 0, 1);
    AddSub(F, 0, y);
    DistribRight(F, m, 1, y);
    MulOne(F, y);
    MulZero(F, y);
    AddCancel(F, F.mul(m, y), F.sub(0, y), y);
  }

  /** The middle factors of a product of two products can be swapped. */
  lemma MulSwap4(F: Field, a: nat, b: nat, c: nat, d: nat)
    requires IsField(F) && a < F.count && b < F.count && c < F.count && d < F.count
    ensures F.mul(F.mul(a, b), F.mul(c, d)) == F.mul(F.mul(a, c), F.mul(b, d))
  {
    MulAssoc(F, a, b, F.mul(c, d));
    MulSwap(F, b, c, d);
    MulAssoc(F, a, c, F.mul(b, d));
  }

  /** A product with a negated factor is the negated product. */
  lemma MulNeg(F: Field, a: nat, b: nat)
    requires IsField(F) && a < F.count && b < F.count
    ensures F.mul(a, F.sub(0, b)) == F.sub(0, F.mul(a, b))
    ensures F.mul(F.sub(0, a), b) == F.sub(0, F.mul(a, b))
  {
    var m := F.sub(0, 1);
    MulNegOne(F, b);
    MulNegOne(F, a);
    MulNegOne(F, F.mul(a, b));
    MulSwap(F, a, m, b);
    MulAssoc(F, m, a, b);
  }

  /** The reciprocal of a product is the product of the reciprocals. */
  lemma RcpMul(F: Field, a: nat, b: nat)
    requires IsField(F) && 0 < a < F.count && 0 < b < F.count
    ensures F.rcp(F.mul(a, b)) == F.mul(F.rcp(a), F.rcp(b))
  {
    var ra, rb, ab := F.rcp(a), F.rcp(b), F.mul(a, b);
    MulRcp(F, a);
    MulRcp(F, b);
    MulNonzero(F, a, b);
    MulRcp(F, ab);
    MulSwap4(F, a, b, ra, rb);
    MulOne(F, 1);
    // ab * rcp(ab) == 1 == ab * (ra rb), so the two reciprocals agree
    MulComm(F, ab, F.rcp(ab));
    MulComm(F, ab, F.mul(ra, rb));
    MulCancel(F, F.rcp(ab), F.mul(ra, rb), ab);
  }

  /** Negation of a difference, as a sum with a negated element: 0 - (a - b) == (0 - a) + b. */
  lemma NegSub(F: Field, a: nat, b: nat)
    requires IsField(F) && a < F.count && b < F.count
    ensures F.sub(0, F.sub(a, b)) == F.add(F.sub(0, a), b)
  {
    var d, na := F.sub(a, b), F.sub(0, a);
    // (0 - a + b) + (a - b) == 0
    AddSub(F, a, b);
    AddSub(F, 0, a);
    AddAssoc(F, na, b, d);
    AddComm(F, b, d);
    AddAssoc(F, na, d, b);
    AddSwap(F, na, d, b, 0);
    AddZero(F, b);
    AddZero(F, d);
    AddComm(F, na, d);
    // so (0 - a + b) == 0 - d
    AddSub(F, 0, d);
    AddCancel(F, F.add(na, b), F.sub(0, d), d);
  }

  /** Subtracting a negated element adds it: a - (0 - b) == a + b. */
  lemma SubNeg(F: Field, a: nat, b: nat)
    requires IsField(F) && a < F.count && b < F.count
    ensures F.sub(a, F.sub(0, b)) == F.add(a, b)
  {
    var n := F.sub(0, b);
    // (a + b) + n == a + (b + n) == a + 0 == a
    AddSub(F, 0, b);
    AddComm(F, n, b);
    AddAssoc(F, a, b, n);
    AddZero(F, a);
    AddSub(F, F.add(a, b), n);
  }

  /** (0 - i) - x == 0 - (x + i). */
  lemma NegAdd(F: Field, i: nat, x: nat)
    requires IsField(F) && i < F.count && x < F.count
    ensures F.sub(F.sub(0, i), x) == F.sub(0, F.add(x, i))
  {
    var n, t := F.sub(F.sub(0, i), x), F.add(x, i);
    // n + t == (n + x) + i == (0 - i) + i == 0 == (0 - t) + t
    AddSub(F, F.sub(0, i), x);
    AddSub(F, 0, i);
    AddAssoc(F, n, x, i);
    AddSub(F, 0, t);
    AddCancel(F, n, F.sub(0, t), t);
  }

  // ---------------------------------------------------------------------------------------------
  // Fields that compute the same operations

  /** F and G have the same elements and agree on every operation over them. */
  ghost predicate Agree(F: Field, G: Field)
  {
    && F.count == G.count
    && (forall a: nat, b: nat {:trigger F.add(a, b)} :: a < F.count && b < F.count ==>
          F.add(a, b) == G.add(a, b))
    && (forall a: nat, b: nat {:trigger F.sub(a, b)} :: a < F.count && b < F.count ==>
          F.sub(a, b) == G.sub(a, b))
    && (forall a: nat, b: nat {:trigger F.mul(a, b)} :: a < F.count && b < F.count ==>
          F.mul(a, b) == G.mul(a, b))
    && (forall a: nat, b: nat {:trigger F.div(a, b)} :: a < F.count && 0 < b < F.count ==>
          F.div(a, b) == G.div(a, b))
    && (forall a: nat {:trigger F.rcp(a)} :: 0 < a < F.count ==> F.rcp(a) == G.rcp(a))
  }

  lemma AgreeClosed(F: Field, G: Field)
    requires IsField(G) && Agree(F, G)
    ensures Closed(F)
  {
  }

  lemma AgreeAddLaws(F: Field, G: Field)
    requires IsField(G) && Agree(F, G)
    ensures AddCommutes(F) && AddAssociates(F) && AddInverts(F)
  {
    forall a: nat, b: nat | InField(F, a) && InField(F, b)
      ensures F.add(a, b) == F.add(b, a)
      ensures F.add(F.sub(a, b), b) == a && F.sub(F.add(a, b), b) == a
    {
      AddComm(G, a, b);
      AddSub(G, a, b);
    }
    forall a: nat, b: nat, c: nat | InField(F, a) && InField(F, b) && InField(F, c)
      ensures F.add(F.add(a, b), c) == F.add(a, F.add(b, c))
    {
      AddAssoc(G, a, b, c);
    }
    forall a: nat | InField(F, a)
      ensures F.add(a, 0) == a
    {
      AddZero(G, a);
    }
  }

  lemma AgreeMulLaws(F: Field, G: Field)
    requires IsField(G) && Agree(F, G)
    ensures MulCommutes(F) && MulAssociates(F) && MulDistributes(F)
  {
    forall a: nat, b: nat | InField(F, a) && InField(F, b)
      ensures F.mul(a, b) == F.mul(b, a)
    {
      MulComm(G, a, b);
    }
    forall a: nat, b: nat, c: nat | InField(F, a) && InField(F, b) && InField(F, c)
      ensures F.mul(F.mul(a, b), c) == F.mul(a, F.mul(b, c))
      ensures F.mul(a, F.add(b, c)) == F.add(F.mul(a, b), F.mul(a, c))
    {
      MulAssoc(G, a, b, c);
      Distrib(G, a, b, c);
    }
  }

  lemma AgreeInverts(F: Field, G: Field)
    requires IsField(G) && Agree(F, G)
    ensures MulInverts(F)
  {
    forall a: nat | InField(F, a)
      ensures F.mul(a, 1) == a
      ensures a != 0 ==> F.mul(a, F.rcp(a)) == 1
    {
      MulOne(G, a);
      if a != 0 {
        MulRcp(G, a);
      }
    }
    forall a: nat, b: nat | InField(F, a) && InField(F, b) && b != 0
      ensures F.mul(F.div(a, b), b) == a
    {
      DivExact(G, a, b);
    }
  }

  /** A structure that computes the operations of a field is a field itself. */
  lemma AgreeIsField(F: Field, G: Field)
    requires IsField(G) && Agree(F, G)
    ensures IsField(F)
  {
    AgreeClosed(F, G);
    AgreeAddLaws(F, G);
    AgreeMulLaws(F, G);
    AgreeInverts(F, G);
  }
}
