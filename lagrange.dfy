/**
  The Lagrange erasure coder of example.swift, generic over a field.

  A message of K symbols is the list of nodes (i, m_i), i < K. The code word evaluates the
  interpolating polynomial of those nodes at 0 .. N-1, and any K code symbols with distinct
  positions give the message back by interpolating them at 0 .. K-1.

  `Num`, `Den` and `Partial` are the values of `num`, `den` and `sum` after each iteration of the
  loops of `lagrangeInterpolation`; `Interpolate` is the finished sum.
*/
module Lagrange {
  import opened Fields

  /** A code symbol: its position x and its value y. */
  datatype Node = Node(x: nat, y: nat)

  /** Both coordinates of every node are field elements. */
  ghost predicate NodesIn(F: Field, nodes: seq<Node>)
  {
    forall j :: 0 <= j < |nodes| ==> nodes[j].x < F.count && nodes[j].y < F.count
  }

  /** No two nodes share a position. */
  predicate Distinct(nodes: seq<Node>)
  {
    forall j, m :: 0 <= j < |nodes| && 0 <= m < |nodes| && j != m ==> nodes[j].x != nodes[m].x
  }

  /** `num` for node j once the inner loop has visited the first m nodes. */
  function Num(F: Field, nodes: seq<Node>, j: nat, point: nat, m: nat): (r: nat)
    requires IsField(F) && NodesIn(F, nodes) && j < |nodes| && m <= |nodes| && point < F.count
    ensures r < F.count
  {
    if m == 0 then nodes[j].y
    else if m - 1 == j then Num(F, nodes, j, point, m - 1)
    else F.mul(Num(F, nodes, j, point, m - 1), F.sub(point, nodes[m - 1].x))
  }

  /** `den` for node j once the inner loop has visited the first m nodes. */
  function Den(F: Field, nodes: seq<Node>, j: nat, m: nat): (r: nat)
    requires IsField(F) && NodesIn(F, nodes) && j < |nodes| && m <= |nodes|
    ensures r < F.count
  {
    if m == 0 then 1
    else if m - 1 == j then Den(F, nodes, j, m - 1)
    else F.mul(Den(F, nodes, j, m - 1), F.sub(nodes[j].x, nodes[m - 1].x))
  }

  /** With distinct positions the denominator of every basis polynomial is nonzero. */
  lemma {:induction false} DenNonzero(F: Field, nodes: seq<Node>, j: nat, m: nat)
    requires IsField(F) && NodesIn(F, nodes) && Distinct(nodes) && j < |nodes| && m <= |nodes|
    ensures Den(F, nodes, j, m) != 0
  {
    if m > 0 {
      DenNonzero(F, nodes, j, m - 1);
      if m - 1 != j {
        SubZero(F, nodes[j].x, nodes[m - 1].x);
        MulNonzero(F, Den(F, nodes, j, m - 1), F.sub(nodes[j].x, nodes[m - 1].x));
      }
    }
  }

  /** The term y_j * l_j(point) that node j contributes. */
  function Term(F: Field, nodes: seq<Node>, j: nat, point: nat): (r: nat)
    requires IsField(F) && NodesIn(F, nodes) && Distinct(nodes) && j < |nodes| && point < F.count
    ensures r < F.count
  {
    DenNonzero(F, nodes, j, |nodes|);
    F.div(Num(F, nodes, j, point, |nodes|), Den(F, nodes, j, |nodes|))
  }

  /** `sum` once the outer loop has added the terms of the first k nodes. */
  function Partial(F: Field, nodes: seq<Node>, point: nat, k: nat): (r: nat)
    requires IsField(F) && NodesIn(F, nodes) && Distinct(nodes) && k <= |nodes| && point < F.count
    ensures r < F.count
  {
    if k == 0 then 0 else F.add(Partial(F, nodes, point, k - 1), Term(F, nodes, k - 1, point))
  }

  /** The value at point of the polynomial interpolating the nodes. */
  function Interpolate(F: Field, nodes: seq<Node>, point: nat): (r: nat)
    requires IsField(F) && NodesIn(F, nodes) && Distinct(nodes) && point < F.count
    ensures r < F.count
  {
    Partial(F, nodes, point, |nodes|)
  }

  /**
    lagrangeInterpolation (example.swift:9-22). The positions must be distinct, since otherwise a
    denominator is zero and the division fails; with no nodes the result is zero.
  */
  method LagrangeInterpolation(F: Field, nodes: seq<Node>, point: nat) returns (sum: nat)
    requires IsField(F) && NodesIn(F, nodes) && Distinct(nodes) && point < F.count
    ensures sum == Interpolate(F, nodes, point)
    ensures |nodes| == 0 ==> sum == 0
  {
    sum := 0;
    for j := 0 to |nodes|
      invariant sum == Partial(F, nodes, point, j)
    {
      var num, den := BasisFactors(F, nodes, j, point);
      PartialStep(F, nodes, point, j, sum, num, den);
      sum := F.add(sum, F.div(num, den));
    }
  }

  /** One more node: the running sum grows by num / den, the term of node j. */
  lemma PartialStep(F: Field, nodes: seq<Node>, point: nat, j: nat, sum: nat, num: nat, den: nat)
    requires IsField(F) && NodesIn(F, nodes) && Distinct(nodes) && point < F.count && j < |nodes|
    requires sum == Partial(F, nodes, point, j)
    requires num == Num(F, nodes, j, point, |nodes|) && den == Den(F, nodes, j, |nodes|)
    ensures F.add(sum, F.div(num, den)) == Partial(F, nodes, point, j + 1)
  {
    DenNonzero(F, nodes, j, |nodes|);
  }

  /**
    The inner loop of lagrangeInterpolation (example.swift:12-18): the numerator y_j times the
    product of (point - x_m) and the denominator, the product of (x_j - x_m), over m != j.
  */
  method BasisFactors(F: Field, nodes: seq<Node>, j: nat, point: nat) returns (num: nat, den: nat)
    requires IsField(F) && NodesIn(F, nodes) && j < |nodes| && point < F.count
    ensures num == Num(F, nodes, j, point, |nodes|) && den == Den(F, nodes, j, |nodes|)
  {
    num, den := nodes[j].y, 1;
    for m := 0 to |nodes|
      invariant num == Num(F, nodes, j, point, m)
      invariant den == Den(F, nodes, j, m)
    {
      if m != j {
        num := F.mul(num, F.sub(point, nodes[m].x));
        den := F.mul(den, F.sub(nodes[j].x, nodes[m].x));
      }
    }
  }


  // ---------------------------------------------------------------------------------------------
  // The interpolating polynomial passes through its nodes

  /** At the position of another node k, the numerator of node j vanishes once k is visited. */
  lemma {:induction false} NumAtOther(F: Field, nodes: seq<Node>, j: nat, k: nat, m: nat)
    requires IsField(F) && NodesIn(F, nodes) && j < |nodes| && k < m <= |nodes| && k != j
    ensures Num(F, nodes, j, nodes[k].x, m) == 0
  {
    var point := nodes[k].x;
    if m - 1 == k {
      SubZero(F, point, point);
      MulZero(F, Num(F, nodes, j, point, m - 1));
    } else {
      NumAtOther(F, nodes, j, k, m - 1);
      if m - 1 != j {
        MulZero(F, F.sub(point, nodes[m - 1].x));
      }
    }
  }

  /** At its own position, the numerator of node j is y_j times its denominator. */
  lemma {:induction false} NumAtOwn(F: Field, nodes: seq<Node>, j: nat, m: nat)
    requires IsField(F) && NodesIn(F, nodes) && j < |nodes| && m <= |nodes|
    ensures Num(F, nodes, j, nodes[j].x, m) == F.mul(nodes[j].y, Den(F, nodes, j, m))
  {
    if m > 0 {
      NumAtOwn(F, nodes, j, m - 1);
      if m - 1 != j {
        MulAssoc(F, nodes[j].y, Den(F, nodes, j, m - 1), F.sub(nodes[j].x, nodes[m - 1].x));
      }
    } else {
      MulOne(F, nodes[j].y);
    }
  }

  /** The basis polynomial l_j is one at its own node and zero at every other node. */
  lemma TermAtNode(F: Field, nodes: seq<Node>, j: nat, k: nat)
    requires IsField(F) && NodesIn(F, nodes) && Distinct(nodes) && j < |nodes| && k < |nodes|
    ensures Term(F, nodes, j, nodes[k].x) == if j == k then nodes[k].y else 0
  {
    var n := |nodes|;
    DenNonzero(F, nodes, j, n);
    if j == k {
      NumAtOwn(F, nodes, j, n);
      DivMul(F, nodes[j].y, Den(F, nodes, j, n));
    } else {
      NumAtOther(F, nodes, j, k, n);
      DivZero(F, Den(F, nodes, j, n));
    }
  }

  /** The partial sum at node k is y_k once node k has been added, and zero before. */
  lemma {:induction false} PartialAtNode(F: Field, nodes: seq<Node>, k: nat, m: nat)
    requires IsField(F) && NodesIn(F, nodes) && Distinct(nodes) && k < |nodes| && m <= |nodes|
    ensures Partial(F, nodes, nodes[k].x, m) == if k < m then nodes[k].y else 0
  {
    if m > 0 {
      var point, y := nodes[k].x, nodes[k].y;
      var s, t := Partial(F, nodes, point, m - 1), Term(F, nodes, m - 1, point);
      PartialAtNode(F, nodes, k, m - 1);
      TermAtNode(F, nodes, m - 1, k);
      assert Partial(F, nodes, point, m) == F.add(s, t);
      if k < m - 1 {
        assert s == y && t == 0;
        AddZero(F, y);
      } else if k == m - 1 {
        assert s == 0 && t == y;
        AddZero(F, y);
      } else {
        assert s == 0 && t == 0;
        AddZero(F, 0);
      }
    }
  }

  /** Interpolation reproduces the value of every node. */
  lemma InterpolateAtNode(F: Field, nodes: seq<Node>, k: nat)
    requires IsField(F) && NodesIn(F, nodes) && Distinct(nodes) && k < |nodes|
    ensures Interpolate(F, nodes, nodes[k].x) == nodes[k].y
  {
    PartialAtNode(F, nodes, k, |nodes|);
  }
}
