/**
  The polynomial behind Lagrange interpolation.

  The numerator of each node is a product of linear factors, so it is a polynomial in the point;
  the interpolating polynomial is the sum of the numerators, each scaled by the reciprocal of its
  denominator. It has no more coefficients than there are nodes, which makes interpolation exact
  (`InterpolateExact`): nodes that lie on such a polynomial are interpolated by that polynomial.
  This is what lets any K code symbols give back a message of K symbols.
*/
module Interpolation {
  import opened Fields
  import opened Polynomials
  import opened Lagrange


  /** The numerator of node j as a polynomial in the point, once the first m nodes are visited. */
  function NumPoly(F: Field, nodes: seq<Node>, j: nat, m: nat): (r: seq<nat>)
    requires IsField(F) && NodesIn(F, nodes) && j < |nodes| && m <= |nodes|
    ensures Elements(F, r) && |r| == if j < m then m else m + 1
  {
    if m == 0 then [nodes[j].y]
    else if m - 1 == j then NumPoly(F, nodes, j, m - 1)
    else MulLinear(F, NumPoly(F, nodes, j, m - 1), nodes[m - 1].x)
  }

  lemma {:induction false} EvalNumPoly(F: Field, nodes: seq<Node>, j: nat, point: nat, m: nat)
    requires IsField(F) && NodesIn(F, nodes) && j < |nodes| && m <= |nodes| && point < F.count
    ensures Eval(F, NumPoly(F, nodes, j, m), point) == Num(F, nodes, j, point, m)
  {
    if m == 0 {
      EvalConst(F, nodes[j].y, point);
    } else {
      EvalNumPoly(F, nodes, j, point, m - 1);
      if m - 1 != j {
        EvalMulLinearOf(F, NumPoly(F, nodes, j, m - 1), nodes[m - 1].x, point, Num(F, nodes, j, point, m - 1));
      }
    }
  }

  /** `EvalMulLinear` with the value of the factor named. */
  lemma EvalMulLinearOf(F: Field, p: seq<nat>, c: nat, z: nat, a: nat)
    requires IsField(F) && Elements(F, p) && c < F.count && z < F.count && Eval(F, p, z) == a
    ensures Eval(F, MulLinear(F, p, c), z) == F.mul(a, F.sub(z, c))
  {
    EvalMulLinear(F, p, c, z);
  }

  /** The term of node j as a polynomial: its numerator times the reciprocal of its denominator. */
  function TermPoly(F: Field, nodes: seq<Node>, j: nat): (r: seq<nat>)
    requires IsField(F) && NodesIn(F, nodes) && Distinct(nodes) && j < |nodes|
    ensures Elements(F, r) && |r| <= |nodes|
  {
    DenNonzero(F, nodes, j, |nodes|);
    MulRcp(F, Den(F, nodes, j, |nodes|));
    Scale(F, NumPoly(F, nodes, j, |nodes|), F.rcp(Den(F, nodes, j, |nodes|)))
  }

  lemma EvalTermPoly(F: Field, nodes: seq<Node>, j: nat, point: nat)
    requires IsField(F) && NodesIn(F, nodes) && Distinct(nodes) && j < |nodes| && point < F.count
    ensures Eval(F, TermPoly(F, nodes, j), point) == Term(F, nodes, j, point)
  {
    var n := |nodes|;
    var d := Den(F, nodes, j, n);
    DenNonzero(F, nodes, j, n);
    MulRcp(F, d);
    EvalScale(F, NumPoly(F, nodes, j, n), F.rcp(d), point);
    EvalNumPoly(F, nodes, j, point, n);
    DivIsMulRcp(F, Num(F, nodes, j, point, n), d);
    MulComm(F, Num(F, nodes, j, point, n), F.rcp(d));
  }

  /** The term polynomials of all nodes. */
  function TermPolys(F: Field, nodes: seq<Node>): (ps: seq<seq<nat>>)
    requires IsField(F) && NodesIn(F, nodes) && Distinct(nodes)
    ensures |ps| == |nodes| && AllElements(F, ps)
    ensures forall j :: 0 <= j < |nodes| ==> ps[j] == TermPoly(F, nodes, j) && |ps[j]| <= |nodes|
  {
    seq(|nodes|, j requires 0 <= j < |nodes| => TermPoly(F, nodes, j))
  }

  /** The terms of all nodes at a point. */
  function TermValues(F: Field, nodes: seq<Node>, point: nat): (vs: seq<nat>)
    requires IsField(F) && NodesIn(F, nodes) && Distinct(nodes) && point < F.count
    ensures |vs| == |nodes| && Elements(F, vs)
    ensures forall j :: 0 <= j < |nodes| ==> vs[j] == Term(F, nodes, j, point)
  {
    seq(|nodes|, j requires 0 <= j < |nodes| => Term(F, nodes, j, point))
  }

  /** The partial sums of the interpolation loop are sums of terms. */
  lemma {:induction false} PartialIsSum(F: Field, nodes: seq<Node>, point: nat, k: nat)
    requires IsField(F) && NodesIn(F, nodes) && Distinct(nodes) && k <= |nodes| && point < F.count
    ensures Partial(F, nodes, point, k) == SumValues(F, TermValues(F, nodes, point), k)
  {
    if k > 0 {
      PartialIsSum(F, nodes, point, k - 1);
    }
  }

  /** The interpolating polynomial of the nodes: it has no more coefficients than there are nodes. */
  function InterpPoly(F: Field, nodes: seq<Node>): (r: seq<nat>)
    requires IsField(F) && NodesIn(F, nodes) && Distinct(nodes)
    ensures Elements(F, r) && |r| <= |nodes|
  {
    SumPolysLength(F, TermPolys(F, nodes), |nodes|, |nodes|);
    SumPolys(F, TermPolys(F, nodes), |nodes|)
  }

  /** Interpolation evaluates the interpolating polynomial. */
  lemma EvalInterpPoly(F: Field, nodes: seq<Node>, point: nat)
    requires IsField(F) && NodesIn(F, nodes) && Distinct(nodes) && point < F.count
    ensures Eval(F, InterpPoly(F, nodes), point) == Interpolate(F, nodes, point)
  {
    var ps, vs := TermPolys(F, nodes), TermValues(F, nodes, point);
    forall j | 0 <= j < |nodes|
      ensures Eval(F, ps[j], point) == vs[j]
    {
      EvalTermPoly(F, nodes, j, point);
    }
    EvalSumPolys(F, ps, |nodes|, point, vs);
    PartialIsSum(F, nodes, point, |nodes|);
  }

  /** The positions of the nodes. */
  function Positions(nodes: seq<Node>): (xs: seq<nat>)
    ensures |xs| == |nodes| && forall k :: 0 <= k < |nodes| ==> xs[k] == nodes[k].x
  {
    seq(|nodes|, k requires 0 <= k < |nodes| => nodes[k].x)
  }

  /**
    Interpolation is exact: when the nodes lie on a polynomial P with no more coefficients than
    there are nodes, interpolating them gives P everywhere.
  */
  lemma InterpolateExact(F: Field, nodes: seq<Node>, P: seq<nat>)
    requires IsField(F) && NodesIn(F, nodes) && Distinct(nodes) && Elements(F, P) && |P| <= |nodes|
    requires forall k :: 0 <= k < |nodes| ==> Eval(F, P, nodes[k].x) == nodes[k].y
    ensures forall z: nat :: z < F.count ==> Interpolate(F, nodes, z) == Eval(F, P, z)
  {
    var Q := InterpPoly(F, nodes);
    var D := Minus(F, P, Q);
    var xs := Positions(nodes);
    forall k | 0 <= k < |xs|
      ensures Eval(F, D, xs[k]) == 0
    {
      EvalMinus(F, P, Q, xs[k]);
      EvalInterpPoly(F, nodes, xs[k]);
      InterpolateAtNode(F, nodes, k);
      SubZero(F, nodes[k].y, nodes[k].y);
    }
    ZeroPoly(F, D, xs);
    forall z: nat | z < F.count
      ensures Interpolate(F, nodes, z) == Eval(F, P, z)
    {
      EvalMinus(F, P, Q, z);
      EvalInterpPoly(F, nodes, z);
      SubZero(F, Eval(F, P, z), Eval(F, Q, z));
    }
  }
}
