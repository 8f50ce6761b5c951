/**
  Why the Cauchy coder of cauchy.swift decodes: for any K distinct admissible rows, multiplying
  the K code symbols of those rows by the closed-form inverse gives the message back.

  The proof goes through Lagrange interpolation. With D(x) the product of x + k over the columns
  k < K and M(z) the polynomial sum_l m_l prod_{k != l} (z + k), every code symbol satisfies
  c_r D(x_r) == M(x_r). M has K coefficients, so it is the polynomial that interpolates the nodes
  (x_r, c_r D(x_r)); at z == -i every term of M but the i-th vanishes, and M(-i) is m_i times a
  nonzero product. The closed-form inverse entry is, term by term, the Lagrange basis value at -i
  divided by that product.
*/
module CauchyProof {
  import opened Fields
  import opened Polynomials
  import opened Lagrange
  import opened Interpolation
  import opened Products
  import opened Cauchy

  // ---------------------------------------------------------------------------------------------
  // The factors

  /** k |-> x + k: the factors of D(x). */
  function Shift(F: Field, x: nat): nat -> nat
  {
    (k: nat) => F.add(x, k)
  }

  /** k |-> i - k: the factors of `prod_y`. */
  function ColDiffs(F: Field, i: nat): nat -> nat
  {
    (k: nat) => F.sub(i, k)
  }

  /** k |-> rows[k] + i: the second factors of `prod_xy`. */
  function RowsPlus(F: Field, rows: seq<nat>, i: nat): nat -> nat
  {
    (k: nat) => F.add(Coef(rows, k), i)
  }

  /** k |-> point - rows[k]: the factors of a Lagrange numerator. */
  function PointDiffs(F: Field, rows: seq<nat>, point: nat): nat -> nat
  {
    (k: nat) => F.sub(point, Coef(rows, k))
  }

  /** D(x): the product of x + k over the columns k < n. */
  function ColumnProd(F: Field, x: nat, n: nat): (r: nat)
    requires IsField(F) && x < F.count && n <= F.count
    ensures Factors(F, Shift(F, x), n) && r < F.count
  {
    Prod(F, Shift(F, x), -1, n)
  }

  // ---------------------------------------------------------------------------------------------
  // The polynomial M

  /** The polynomial prod_{k < m, k != skip} (z + k). */
  function LinProd(F: Field, skip: int, m: nat): (r: seq<nat>)
    requires IsField(F) && m <= F.count
    ensures Elements(F, r) && |r| == Count(skip, m) + 1
  {
    if m == 0 then [1]
    else if m - 1 == skip then LinProd(F, skip, m - 1)
    else MulLinear(F, LinProd(F, skip, m - 1), F.sub(0, m - 1))
  }

  /** The value of `LinProd` at z is the product of the z + k. */
  lemma {:induction false} EvalLinProd(F: Field, skip: int, m: nat, z: nat)
    requires IsField(F) && m <= F.count && z < F.count
    ensures Factors(F, Shift(F, z), m)
    ensures Eval(F, LinProd(F, skip, m), z) == Prod(F, Shift(F, z), skip, m)
  {
    if m == 0 {
      EvalConst(F, 1, z);
    } else {
      EvalLinProd(F, skip, m - 1, z);
      EvalLinProdStep(F, skip, m, z);
    }
  }

  /** One factor more in `EvalLinProd`. */
  lemma EvalLinProdStep(F: Field, skip: int, m: nat, z: nat)
    requires IsField(F) && 0 < m <= F.count && z < F.count && Factors(F, Shift(F, z), m)
    requires Eval(F, LinProd(F, skip, m - 1), z) == Prod(F, Shift(F, z), skip, m - 1)
    ensures Eval(F, LinProd(F, skip, m), z) == Prod(F, Shift(F, z), skip, m)
  {
    if m - 1 != skip {
      EvalLinProdFactor(F, skip, m, z, Prod(F, Shift(F, z), skip, m - 1));
    }
  }

  lemma EvalLinProdFactor(F: Field, skip: int, m: nat, z: nat, v: nat)
    requires IsField(F) && 0 < m <= F.count && z < F.count && m - 1 != skip
    requires Eval(F, LinProd(F, skip, m - 1), z) == v
    ensures Eval(F, LinProd(F, skip, m), z) == F.mul(v, F.add(z, m - 1))
  {
    EvalLinearFactor(F, LinProd(F, skip, m - 1), m - 1, z, v);
  }

  /** Multiplying by z - (0 - k) multiplies the value at z by z + k. */
  lemma EvalLinearFactor(F: Field, p: seq<nat>, k: nat, z: nat, v: nat)
    requires IsField(F) && Elements(F, p) && k < F.count && z < F.count
    requires Eval(F, p, z) == v
    ensures Eval(F, MulLinear(F, p, F.sub(0, k)), z) == F.mul(v, F.add(z, k))
  {
    EvalMulLinear(F, p, F.sub(0, k), z);
    SubNeg(F, z, k);
  }

  /** The summands m_l prod_{k != l} (z + k) of M. */
  function MPolys(F: Field, mesg: seq<nat>): (ps: seq<seq<nat>>)
    requires IsField(F) && Elements(F, mesg) && |mesg| <= F.count
    ensures |ps| == |mesg| && AllElements(F, ps)
    ensures forall l :: 0 <= l < |mesg| ==> ps[l] == Scale(F, LinProd(F, l, |mesg|), mesg[l])
    ensures forall l :: 0 <= l < |mesg| ==> |ps[l]| == |mesg|
  {
    seq(|mesg|, l requires 0 <= l < |mesg| => Scale(F, LinProd(F, l, |mesg|), mesg[l]))
  }

  /** M: a polynomial with no more coefficients than the message has symbols. */
  function MPoly(F: Field, mesg: seq<nat>): (r: seq<nat>)
    requires IsField(F) && Elements(F, mesg) && |mesg| <= F.count
    ensures Elements(F, r) && |r| <= |mesg|
  {
    SumPolysLength(F, MPolys(F, mesg), |mesg|, |mesg|);
    SumPolys(F, MPolys(F, mesg), |mesg|)
  }

  /** The values of the summands of M at z. */
  function MValues(F: Field, mesg: seq<nat>, z: nat): (vs: seq<nat>)
    requires IsField(F) && Elements(F, mesg) && |mesg| <= F.count && z < F.count
    ensures Factors(F, Shift(F, z), |mesg|)
    ensures |vs| == |mesg| && Elements(F, vs)
    ensures forall l :: 0 <= l < |mesg| ==> vs[l] == F.mul(mesg[l], Prod(F, Shift(F, z), l, |mesg|))
  {
    EvalLinProd(F, -1, |mesg|, z);
    var vs := seq<nat>(|mesg|, l requires 0 <= l < |mesg| => F.mul(mesg[l], Prod(F, Shift(F, z), l, |mesg|)));
    assert Elements(F, vs) by {
      forall l | 0 <= l < |mesg|
        ensures vs[l] < F.count
      {
        assert InField(F, mesg[l]) && InField(F, Prod(F, Shift(F, z), l, |mesg|));
      }
    }
    vs
  }

  /** M at z is the sum of the values of its summands. */
  lemma EvalMPoly(F: Field, mesg: seq<nat>, z: nat)
    requires IsField(F) && Elements(F, mesg) && |mesg| <= F.count && z < F.count
    ensures Eval(F, MPoly(F, mesg), z) == SumValues(F, MValues(F, mesg, z), |mesg|)
  {
    var ps, vs := MPolys(F, mesg), MValues(F, mesg, z);
    forall l | 0 <= l < |mesg|
      ensures Eval(F, ps[l], z) == vs[l]
    {
      EvalScale(F, LinProd(F, l, |mesg|), mesg[l], z);
      EvalLinProd(F, l, |mesg|, z);
    }
    EvalSumPolys(F, ps, |mesg|, z, vs);
  }

  // ---------------------------------------------------------------------------------------------
  // Encoding: c D(x) == M(x)

  /** (e + a r)(b p) == s + a p when e (b p) == s and b r == 1. */
  lemma CancelEntry(F: Field, e: nat, a: nat, r: nat, b: nat, p: nat, s: nat)
    requires IsField(F) && e < F.count && a < F.count && r < F.count && b < F.count && p < F.count
    requires F.mul(b, r) == 1 && F.mul(e, F.mul(b, p)) == s
    ensures F.mul(F.add(e, F.mul(a, r)), F.mul(b, p)) == F.add(s, F.mul(a, p))
  {
    DistribRight(F, e, F.mul(a, r), F.mul(b, p));
    MulComm(F, b, p);
    MulSwap4(F, a, r, p, b);
    MulComm(F, r, b);
    MulOne(F, F.mul(a, p));
  }

  /**
    The encoder's sum for a row x, times D(x), is the sum of the first m summands of M at x: each
    matrix entry 1 / (x + l) cancels the factor x + l of D(x).
  */
  lemma {:induction false} EncodeTimesD(F: Field, mesg: seq<nat>, x: nat, m: nat)
    requires IsField(F) && Elements(F, mesg) && m <= |mesg| <= F.count && x < F.count
    requires forall j: nat :: j < |mesg| ==> F.add(x, j) != 0
    ensures Factors(F, Shift(F, x), |mesg|)
    ensures F.mul(EncodeSum(F, mesg, x, m), Prod(F, Shift(F, x), -1, |mesg|))
         == SumValues(F, MValues(F, mesg, x), m)
  {
    if m == 0 {
      MulZero(F, Prod(F, Shift(F, x), -1, |mesg|));
    } else {
      EncodeTimesD(F, mesg, x, m - 1);
      EncodeTimesDStep(F, mesg, x, m);
    }
  }

  /** One column more in `EncodeTimesD`. */
  lemma EncodeTimesDStep(F: Field, mesg: seq<nat>, x: nat, m: nat)
    requires IsField(F) && Elements(F, mesg) && 0 < m <= |mesg| <= F.count && x < F.count
    requires forall j: nat :: j < |mesg| ==> F.add(x, j) != 0
    requires Factors(F, Shift(F, x), |mesg|)
    requires F.mul(EncodeSum(F, mesg, x, m - 1), Prod(F, Shift(F, x), -1, |mesg|))
          == SumValues(F, MValues(F, mesg, x), m - 1)
    ensures F.mul(EncodeSum(F, mesg, x, m), Prod(F, Shift(F, x), -1, |mesg|))
         == SumValues(F, MValues(F, mesg, x), m)
  {
    var l := m - 1;
    ProdSplit(F, Shift(F, x), l, |mesg|);
    CancelEntry(F, EncodeSum(F, mesg, x, l), mesg[l], Matrix(F, x, l), F.add(x, l),
                Prod(F, Shift(F, x), l, |mesg|), SumValues(F, MValues(F, mesg, x), l));
  }

  // ---------------------------------------------------------------------------------------------
  // M at a negated column

  /** A sum whose values vanish except at index i is the value at i (once i is summed). */
  lemma {:induction false} SumValuesSingle(F: Field, vs: seq<nat>, i: nat, m: nat)
    requires IsField(F) && Elements(F, vs) && m <= |vs| && i < |vs|
    requires forall l :: 0 <= l < |vs| && l != i ==> vs[l] == 0
    ensures SumValues(F, vs, m) == if i < m then vs[i] else 0
  {
    if m > 0 {
      SumValuesSingle(F, vs, i, m - 1);
      AddZero(F, SumValues(F, vs, m - 1));
      AddZero(F, vs[m - 1]);
    }
  }

  /** At z == 0 - i every summand of M but the i-th has the factor z + i == 0. */
  lemma MAtColumn(F: Field, mesg: seq<nat>, i: nat)
    requires IsField(F) && Elements(F, mesg) && i < |mesg| <= F.count
    ensures SumValues(F, MValues(F, mesg, F.sub(0, i)), |mesg|) == F.mul(mesg[i], Pivot(F, i, |mesg|))
  {
    var n := F.sub(0, i);
    var vs := MValues(F, mesg, n);
    AddSub(F, 0, i);
    forall l | 0 <= l < |vs| && l != i
      ensures vs[l] == 0
    {
      ProdZero(F, Shift(F, n), l, |mesg|, i);
      MulZero(F, mesg[l]);
    }
    SumValuesSingle(F, vs, i, |mesg|);
  }

  /** (0 - i) + k is zero only for k == i. */
  lemma NegShiftNonzero(F: Field, i: nat, k: nat)
    requires IsField(F) && i < F.count && k < F.count && k != i
    ensures F.add(F.sub(0, i), k) != 0
  {
    var n := F.sub(0, i);
    AddSub(F, 0, i);
    AddComm(F, n, k);
    AddComm(F, n, i);
    if F.add(n, k) == 0 {
      AddCancel(F, k, i, n);
    }
  }

  /** The product of (0 - i) + k over the columns k != i: M(0 - i) is m_i times it. It is nonzero. */
  function Pivot(F: Field, i: nat, n: nat): (r: nat)
    requires IsField(F) && i < n <= F.count
    ensures Factors(F, Shift(F, F.sub(0, i)), n)
    ensures r < F.count && r != 0
  {
    forall k: nat | k < n && k != i
      ensures Shift(F, F.sub(0, i))(k) != 0
    {
      NegShiftNonzero(F, i, k);
    }
    ProdNonzero(F, Shift(F, F.sub(0, i)), i, n);
    Prod(F, Shift(F, F.sub(0, i)), i, n)
  }

  // ---------------------------------------------------------------------------------------------
  // The code symbols as interpolation nodes

  /** The code symbols c_r of rows x_r: c_r == EncodeSum of the message for x_r. */
  ghost predicate Encoded(F: Field, mesg: seq<nat>, rows: seq<nat>, code: seq<nat>)
    requires IsField(F) && Elements(F, mesg) && Elements(F, rows) && |mesg| <= F.count
    requires Admissible(F, rows, |mesg|)
  {
    |code| == |rows| && forall r :: 0 <= r < |rows| ==> code[r] == EncodeSum(F, mesg, rows[r], |mesg|)
  }

  /** The nodes (x_r, c_r D(x_r)). */
  function CodeNodes(F: Field, code: seq<nat>, rows: seq<nat>): (nodes: seq<Node>)
    requires IsField(F) && Elements(F, code) && Elements(F, rows) && |code| == |rows| <= F.count
    ensures |nodes| == |rows| && NodesIn(F, nodes)
    ensures forall r :: 0 <= r < |rows| ==> nodes[r].x == rows[r]
    ensures forall r :: 0 <= r < |rows| ==> nodes[r].y == F.mul(code[r], ColumnProd(F, rows[r], |rows|))
    ensures DistinctRows(rows, |rows|) ==> Distinct(nodes)
  {
    var nodes := seq(|rows|, r requires 0 <= r < |rows| =>
      Node(rows[r], F.mul(code[r], ColumnProd(F, rows[r], |rows|))));
    assert NodesIn(F, nodes) by {
      forall r | 0 <= r < |rows|
        ensures nodes[r].y < F.count
      {
        assert InField(F, code[r]) && InField(F, ColumnProd(F, rows[r], |rows|));
      }
    }
    nodes
  }

  /** M(x) == c D(x) for the code symbol c of a row x. */
  lemma EvalMAtRow(F: Field, mesg: seq<nat>, x: nat, c: nat)
    requires IsField(F) && Elements(F, mesg) && |mesg| <= F.count && x < F.count
    requires forall j: nat :: j < |mesg| ==> F.add(x, j) != 0
    requires c == EncodeSum(F, mesg, x, |mesg|)
    ensures Eval(F, MPoly(F, mesg), x) == F.mul(c, ColumnProd(F, x, |mesg|))
  {
    EncodeTimesD(F, mesg, x, |mesg|);
    EvalMPoly(F, mesg, x);
  }

  /** The code node of row r lies on M. */
  lemma CodeOnM(F: Field, mesg: seq<nat>, rows: seq<nat>, code: seq<nat>, r: nat)
    requires IsField(F) && Elements(F, mesg) && Elements(F, rows) && |rows| == |mesg| <= F.count
    requires Admissible(F, rows, |mesg|) && Encoded(F, mesg, rows, code) && r < |rows|
    ensures Elements(F, code)
    ensures Eval(F, MPoly(F, mesg), CodeNodes(F, code, rows)[r].x) == CodeNodes(F, code, rows)[r].y
  {
    EvalMAtRow(F, mesg, rows[r], code[r]);
  }

  /** The code nodes are interpolated by M. */
  lemma InterpolateCodeIsM(F: Field, mesg: seq<nat>, rows: seq<nat>, code: seq<nat>)
    requires IsField(F) && Elements(F, mesg) && Elements(F, rows) && |rows| == |mesg| <= F.count
    requires DistinctRows(rows, |rows|) && Admissible(F, rows, |mesg|) && Encoded(F, mesg, rows, code)
    ensures Elements(F, code) && NodesIn(F, CodeNodes(F, code, rows)) && Distinct(CodeNodes(F, code, rows))
    ensures forall z: nat :: z < F.count ==> Interpolate(F, CodeNodes(F, code, rows), z) == Eval(F, MPoly(F, mesg), z)
  {
    var nodes := CodeNodes(F, code, rows);
    forall r | 0 <= r < |rows|
      ensures Eval(F, MPoly(F, mesg), nodes[r].x) == nodes[r].y
    {
      CodeOnM(F, mesg, rows, code, r);
    }
    InterpolateExact(F, nodes, MPoly(F, mesg));
  }

  /** The interpolation of the code nodes at 0 - i is m_i times the product of (0 - i) + k, k != i. */
  lemma InterpolateCode(F: Field, mesg: seq<nat>, rows: seq<nat>, code: seq<nat>, i: nat)
    requires IsField(F) && Elements(F, mesg) && Elements(F, rows) && |rows| == |mesg| <= F.count
    requires DistinctRows(rows, |rows|) && Admissible(F, rows, |mesg|) && Encoded(F, mesg, rows, code)
    requires i < |mesg|
    ensures Elements(F, code) && NodesIn(F, CodeNodes(F, code, rows)) && Distinct(CodeNodes(F, code, rows))
    ensures Interpolate(F, CodeNodes(F, code, rows), F.sub(0, i)) == F.mul(mesg[i], Pivot(F, i, |mesg|))
  {
    InterpolateCodeIsM(F, mesg, rows, code);
    EvalMPoly(F, mesg, F.sub(0, i));
    MAtColumn(F, mesg, i);
  }

  // ---------------------------------------------------------------------------------------------
  // The loop products of cauchyInverse as products of factors

  /** The Lagrange denominator of node j is `prod_x` of row j. */
  lemma {:induction false} DenIsProdX(F: Field, nodes: seq<Node>, rows: seq<nat>, j: nat, m: nat)
    requires IsField(F) && NodesIn(F, nodes) && Elements(F, rows) && |nodes| == |rows|
    requires j < |rows| && m <= |rows| && forall k :: 0 <= k < |rows| ==> nodes[k].x == rows[k]
    ensures Den(F, nodes, j, m) == ProdX(F, rows, j, m)
  {
    if m > 0 {
      DenIsProdX(F, nodes, rows, j, m - 1);
    }
  }

  /** `prod_y` is the product of the i - k, k != i. */
  lemma {:induction false} ProdYIsProd(F: Field, i: nat, m: nat)
    requires IsField(F) && i < F.count && m <= F.count
    ensures Factors(F, ColDiffs(F, i), m)
    ensures ProdY(F, i, m) == Prod(F, ColDiffs(F, i), i, m)
  {
    if m > 0 {
      ProdYIsProd(F, i, m - 1);
    }
  }

  /** The factors that range over the rows are elements, and are what they say for k < |rows|. */
  lemma RowFactors(F: Field, rows: seq<nat>, i: nat, point: nat)
    requires IsField(F) && Elements(F, rows) && i < F.count && point < F.count
    ensures Factors(F, RowsPlus(F, rows, i), |rows|) && Factors(F, PointDiffs(F, rows, point), |rows|)
    ensures forall k :: 0 <= k < |rows| ==> RowsPlus(F, rows, i)(k) == F.add(rows[k], i)
    ensures forall k :: 0 <= k < |rows| ==> PointDiffs(F, rows, point)(k) == F.sub(point, rows[k])
  {
    forall k: nat | k < |rows|
      ensures RowsPlus(F, rows, i)(k) == F.add(rows[k], i) < F.count
      ensures PointDiffs(F, rows, point)(k) == F.sub(point, rows[k]) < F.count
    {
      CoefIn(F, rows, k);
    }
  }

  /** `prod_xy` is D(rows[j]) times the product of all rows[k] + i. */
  lemma {:induction false} ProdXYIsProd(F: Field, rows: seq<nat>, i: nat, j: nat, m: nat)
    requires IsField(F) && Elements(F, rows) && m <= |rows| && m <= F.count && i < F.count && j < |rows|
    ensures Factors(F, Shift(F, rows[j]), m) && Factors(F, RowsPlus(F, rows, i), m)
    ensures ProdXY(F, rows, i, j, m)
         == F.mul(Prod(F, Shift(F, rows[j]), -1, m), Prod(F, RowsPlus(F, rows, i), -1, m))
  {
    RowFactors(F, rows, i, 0);
    if m == 0 {
      MulOne(F, 1);
    } else {
      ProdXYIsProd(F, rows, i, j, m - 1);
      ProdXYStep(F, rows, i, j, m);
    }
  }

  /** One row more in `ProdXYIsProd`. */
  lemma ProdXYStep(F: Field, rows: seq<nat>, i: nat, j: nat, m: nat)
    requires IsField(F) && Elements(F, rows) && 0 < m <= |rows| && m <= F.count && i < F.count && j < |rows|
    requires Factors(F, Shift(F, rows[j]), m) && Factors(F, RowsPlus(F, rows, i), m)
    requires RowsPlus(F, rows, i)(m - 1) == F.add(rows[m - 1], i)
    requires ProdXY(F, rows, i, j, m - 1)
          == F.mul(Prod(F, Shift(F, rows[j]), -1, m - 1), Prod(F, RowsPlus(F, rows, i), -1, m - 1))
    ensures ProdXY(F, rows, i, j, m)
         == F.mul(Prod(F, Shift(F, rows[j]), -1, m), Prod(F, RowsPlus(F, rows, i), -1, m))
  {
    MulSwap4(F, Prod(F, Shift(F, rows[j]), -1, m - 1), Prod(F, RowsPlus(F, rows, i), -1, m - 1),
             F.add(rows[j], m - 1), F.add(rows[m - 1], i));
  }

  /** The Lagrange numerator of node j at a point is y_j times the product of point - x_k, k != j. */
  lemma {:induction false} NumIsProd(F: Field, nodes: seq<Node>, rows: seq<nat>, j: nat, point: nat, m: nat)
    requires IsField(F) && NodesIn(F, nodes) && Elements(F, rows) && |nodes| == |rows| && point < F.count
    requires j < |rows| && m <= |rows| && forall k :: 0 <= k < |rows| ==> nodes[k].x == rows[k]
    ensures Factors(F, PointDiffs(F, rows, point), m)
    ensures Num(F, nodes, j, point, m) == F.mul(nodes[j].y, Prod(F, PointDiffs(F, rows, point), j, m))
  {
    RowFactors(F, rows, 0, point);
    if m == 0 {
      MulOne(F, nodes[j].y);
    } else {
      NumIsProd(F, nodes, rows, j, point, m - 1);
      NumStep(F, nodes, rows, j, point, m);
    }
  }

  /** One node more in `NumIsProd`. */
  lemma NumStep(F: Field, nodes: seq<Node>, rows: seq<nat>, j: nat, point: nat, m: nat)
    requires IsField(F) && NodesIn(F, nodes) && Elements(F, rows) && |nodes| == |rows| && point < F.count
    requires j < |rows| && 0 < m <= |rows| && nodes[m - 1].x == rows[m - 1]
    requires Factors(F, PointDiffs(F, rows, point), m)
    requires PointDiffs(F, rows, point)(m - 1) == F.sub(point, rows[m - 1])
    requires Num(F, nodes, j, point, m - 1) == F.mul(nodes[j].y, Prod(F, PointDiffs(F, rows, point), j, m - 1))
    ensures Num(F, nodes, j, point, m) == F.mul(nodes[j].y, Prod(F, PointDiffs(F, rows, point), j, m))
  {
    if m - 1 != j {
      MulAssoc(F, nodes[j].y, Prod(F, PointDiffs(F, rows, point), j, m - 1), F.sub(point, rows[m - 1]));
    }
  }

  /** The product of rows[k] + i over the rows k != r. */
  function OtherRows(F: Field, rows: seq<nat>, i: nat, r: nat): (p: nat)
    requires IsField(F) && Elements(F, rows) && |rows| <= F.count && i < F.count
    ensures Factors(F, RowsPlus(F, rows, i), |rows|) && p < F.count
  {
    RowFactors(F, rows, i, 0);
    Prod(F, RowsPlus(F, rows, i), r, |rows|)
  }

  /** The pivot is (0 - 1)^(n-1) times `prod_y`. */
  lemma PivotSign(F: Field, i: nat, n: nat)
    requires IsField(F) && i < n <= F.count
    ensures Pivot(F, i, n) == F.mul(Sign(F, n - 1), ProdY(F, i, n))
  {
    ProdYIsProd(F, i, n);
    forall k: nat | k < n
      ensures Shift(F, F.sub(0, i))(k) == F.sub(0, ColDiffs(F, i)(k))
    {
      NegSub(F, i, k);
    }
    ProdNeg(F, ColDiffs(F, i), Shift(F, F.sub(0, i)), i, n);
  }

  /** The numerator product at 0 - i is (0 - 1)^(n-1) times the product of rows[k] + i, k != r. */
  lemma NumSign(F: Field, rows: seq<nat>, i: nat, r: nat)
    requires IsField(F) && Elements(F, rows) && r < |rows| <= F.count && i < F.count
    ensures Factors(F, PointDiffs(F, rows, F.sub(0, i)), |rows|)
    ensures Prod(F, PointDiffs(F, rows, F.sub(0, i)), r, |rows|)
         == F.mul(Sign(F, |rows| - 1), OtherRows(F, rows, i, r))
  {
    RowFactors(F, rows, i, F.sub(0, i));
    forall k: nat | k < |rows|
      ensures PointDiffs(F, rows, F.sub(0, i))(k) == F.sub(0, RowsPlus(F, rows, i)(k))
    {
      NegAdd(F, i, rows[k]);
    }
    ProdNeg(F, RowsPlus(F, rows, i), PointDiffs(F, rows, F.sub(0, i)), r, |rows|);
  }

  // ---------------------------------------------------------------------------------------------
  // Decoding: each inverse entry is a Lagrange basis value at 0 - i over the pivot

  /** c (D (a X)) / ((a PX) PY) == ((c D) X) (1/PX 1/PY): the factor a cancels. */
  lemma InverseNormal(F: Field, c: nat, D: nat, a: nat, X: nat, PX: nat, PY: nat)
    requires IsField(F) && c < F.count && D < F.count && X < F.count
    requires 0 < a < F.count && 0 < PX < F.count && 0 < PY < F.count
    ensures F.mul(F.mul(a, PX), PY) != 0
    ensures F.mul(c, F.div(F.mul(D, F.mul(a, X)), F.mul(F.mul(a, PX), PY)))
         == F.mul(F.mul(F.mul(c, D), X), F.mul(F.rcp(PX), F.rcp(PY)))
  {
    var aPX := F.mul(a, PX);
    var v := F.mul(aPX, PY);
    var ra, rPX, rPY := F.rcp(a), F.rcp(PX), F.rcp(PY);
    var R, DX := F.mul(rPX, rPY), F.mul(D, X);
    MulRcp(F, a);
    MulRcp(F, PX);
    MulRcp(F, PY);
    MulNonzero(F, a, PX);
    MulNonzero(F, aPX, PY);
    // 1/v == 1/a (1/PX 1/PY)
    RcpMul(F, aPX, PY);
    RcpMul(F, a, PX);
    MulAssoc(F, ra, rPX, rPY);
    // (D (a X)) / v == (a (D X)) (1/a R) == D X R
    DivIsMulRcp(F, F.mul(D, F.mul(a, X)), v);
    MulSwap(F, D, a, X);
    MulSwap4(F, a, DX, ra, R);
    MulOne(F, F.mul(DX, R));
    // c (D X R) == ((c D) X) R
    MulAssoc(F, c, DX, R);
    MulAssoc(F, c, D, X);
  }

  /** t / piv == ((c D) X) (1/PX 1/PY) when t == ((c D)(S X)) / PX and piv == S PY: the sign cancels. */
  lemma TermNormal(F: Field, t: nat, piv: nat, c: nat, D: nat, S: nat, X: nat, PX: nat, PY: nat)
    requires IsField(F) && c < F.count && D < F.count && X < F.count
    requires 0 < S < F.count && 0 < PX < F.count && 0 < PY < F.count
    requires t == F.div(F.mul(F.mul(c, D), F.mul(S, X)), PX) && piv == F.mul(S, PY)
    ensures F.mul(t, F.rcp(piv)) == F.mul(F.mul(F.mul(c, D), X), F.mul(F.rcp(PX), F.rcp(PY)))
  {
    var y := F.mul(c, D);
    var yX := F.mul(y, X);
    var num := F.mul(y, F.mul(S, X));
    var rS, rPX, rPY := F.rcp(S), F.rcp(PX), F.rcp(PY);
    MulRcp(F, S);
    MulRcp(F, PX);
    MulRcp(F, PY);
    MulNonzero(F, S, PY);
    DivIsMulRcp(F, num, PX);
    RcpMul(F, S, PY);
    // (num / PX)(1/S 1/PY) == (num / S)(1/PX 1/PY)
    MulSwap4(F, num, rPX, rS, rPY);
    // num / S == y X
    MulSwap(F, y, S, X);
    MulComm(F, S, yX);
    MulAssoc(F, yX, S, rS);
    MulOne(F, yX);
  }

  /** The closed-form inverse entry in the shape of `InverseNormal`. */
  lemma InverseShape(F: Field, rows: seq<nat>, i: nat, r: nat)
    requires IsField(F) && Elements(F, rows) && |rows| <= F.count && DistinctRows(rows, |rows|)
    requires Admissible(F, rows, |rows|) && i < |rows| && r < |rows|
    ensures Inverse(F, rows, i, r, |rows|)
         == F.div(F.mul(ColumnProd(F, rows[r], |rows|), F.mul(F.add(rows[r], i), OtherRows(F, rows, i, r))),
                  F.mul(F.mul(F.add(rows[r], i), ProdX(F, rows, r, |rows|)), ProdY(F, i, |rows|)))
  {
    RowFactors(F, rows, i, 0);
    ProdXYIsProd(F, rows, i, r, |rows|);
    ProdSplit(F, RowsPlus(F, rows, i), r, |rows|);
  }

  /** The Lagrange basis term of code node r at 0 - i in the shape of `TermNormal`. */
  lemma TermShape(F: Field, code: seq<nat>, rows: seq<nat>, i: nat, r: nat)
    requires IsField(F) && Elements(F, code) && Elements(F, rows) && |code| == |rows| <= F.count
    requires DistinctRows(rows, |rows|) && i < |rows| && r < |rows|
    ensures Distinct(CodeNodes(F, code, rows))
    ensures Term(F, CodeNodes(F, code, rows), r, F.sub(0, i))
         == F.div(F.mul(F.mul(code[r], ColumnProd(F, rows[r], |rows|)), F.mul(Sign(F, |rows| - 1), OtherRows(F, rows, i, r))),
                  ProdX(F, rows, r, |rows|))
  {
    var nodes := CodeNodes(F, code, rows);
    DenIsProdX(F, nodes, rows, r, |rows|);
    NumIsProd(F, nodes, rows, r, F.sub(0, i), |rows|);
    NumSign(F, rows, i, r);
  }

  /** c times inverse entry (i, r) in normal form. */
  lemma InverseValue(F: Field, rows: seq<nat>, i: nat, r: nat, c: nat)
    requires IsField(F) && Elements(F, rows) && |rows| <= F.count && DistinctRows(rows, |rows|)
    requires Admissible(F, rows, |rows|) && i < |rows| && r < |rows| && c < F.count
    ensures ProdX(F, rows, r, |rows|) != 0 && ProdY(F, i, |rows|) != 0
    ensures F.mul(c, Inverse(F, rows, i, r, |rows|))
         == F.mul(F.mul(F.mul(c, ColumnProd(F, rows[r], |rows|)), OtherRows(F, rows, i, r)),
                  F.mul(F.rcp(ProdX(F, rows, r, |rows|)), F.rcp(ProdY(F, i, |rows|))))
  {
    InverseShape(F, rows, i, r);
    ProdXNonzero(F, rows, r, |rows|, |rows|);
    ProdYNonzero(F, i, |rows|);
    InverseNormal(F, c, ColumnProd(F, rows[r], |rows|), F.add(rows[r], i), OtherRows(F, rows, i, r),
                  ProdX(F, rows, r, |rows|), ProdY(F, i, |rows|));
  }

  /** The Lagrange term of code node r at 0 - i over the pivot, in the same normal form. */
  lemma TermValue(F: Field, code: seq<nat>, rows: seq<nat>, i: nat, r: nat)
    requires IsField(F) && Elements(F, code) && Elements(F, rows) && |code| == |rows| <= F.count
    requires DistinctRows(rows, |rows|) && i < |rows| && r < |rows|
    ensures Distinct(CodeNodes(F, code, rows))
    ensures ProdX(F, rows, r, |rows|) != 0 && ProdY(F, i, |rows|) != 0
    ensures F.mul(Term(F, CodeNodes(F, code, rows), r, F.sub(0, i)), F.rcp(Pivot(F, i, |rows|)))
         == F.mul(F.mul(F.mul(code[r], ColumnProd(F, rows[r], |rows|)), OtherRows(F, rows, i, r)),
                  F.mul(F.rcp(ProdX(F, rows, r, |rows|)), F.rcp(ProdY(F, i, |rows|))))
  {
    TermShape(F, code, rows, i, r);
    TermOverPivot(F, code, rows, i, r, Term(F, CodeNodes(F, code, rows), r, F.sub(0, i)));
  }

  /** `TermValue` for a value t of the shape `TermShape` gives. */
  lemma TermOverPivot(F: Field, code: seq<nat>, rows: seq<nat>, i: nat, r: nat, t: nat)
    requires IsField(F) && Elements(F, code) && Elements(F, rows) && |code| == |rows| <= F.count
    requires DistinctRows(rows, |rows|) && i < |rows| && r < |rows|
    requires t == F.div(F.mul(F.mul(code[r], ColumnProd(F, rows[r], |rows|)), F.mul(Sign(F, |rows| - 1), OtherRows(F, rows, i, r))),
                        ProdX(F, rows, r, |rows|))
    ensures ProdX(F, rows, r, |rows|) != 0 && ProdY(F, i, |rows|) != 0
    ensures F.mul(t, F.rcp(Pivot(F, i, |rows|)))
         == F.mul(F.mul(F.mul(code[r], ColumnProd(F, rows[r], |rows|)), OtherRows(F, rows, i, r)),
                  F.mul(F.rcp(ProdX(F, rows, r, |rows|)), F.rcp(ProdY(F, i, |rows|))))
  {
    var c, D, S, X := code[r], ColumnProd(F, rows[r], |rows|), Sign(F, |rows| - 1), OtherRows(F, rows, i, r);
    var PX, PY := ProdX(F, rows, r, |rows|), ProdY(F, i, |rows|);
    ProdXNonzero(F, rows, r, |rows|, |rows|);
    ProdYNonzero(F, i, |rows|);
    PivotSign(F, i, |rows|);
    TermNormal(F, t, F.mul(S, PY), c, D, S, X, PX, PY);
  }

  /**
    Entry (i, r) of the closed-form inverse, applied to code symbol c_r, is the Lagrange term of
    code node r at 0 - i divided by the pivot.
  */
  lemma TermIdentity(F: Field, code: seq<nat>, rows: seq<nat>, i: nat, r: nat)
    requires IsField(F) && Elements(F, code) && Elements(F, rows) && |code| == |rows| <= F.count
    requires DistinctRows(rows, |rows|) && Admissible(F, rows, |rows|) && i < |rows| && r < |rows|
    ensures Distinct(CodeNodes(F, code, rows))
    ensures F.mul(code[r], Inverse(F, rows, i, r, |rows|))
         == F.mul(Term(F, CodeNodes(F, code, rows), r, F.sub(0, i)), F.rcp(Pivot(F, i, |rows|)))
  {
    InverseValue(F, rows, i, r, code[r]);
    TermValue(F, code, rows, i, r);
  }

  // ---------------------------------------------------------------------------------------------
  // The round trip

  /**
    After the first m received symbols, the decoder's sum for message symbol i is the sum of the
    first m Lagrange terms of the code nodes at 0 - i, divided by the pivot.
  */
  lemma {:induction false} DecodeTimes(F: Field, code: seq<nat>, rows: seq<nat>, i: nat, m: nat)
    requires IsField(F) && Elements(F, code) && Elements(F, rows) && |code| == |rows| <= F.count
    requires DistinctRows(rows, |rows|) && Admissible(F, rows, |rows|) && i < |rows| && m <= |rows|
    ensures Distinct(CodeNodes(F, code, rows))
    ensures DecodeSum(F, code, rows, i, m)
         == F.mul(Partial(F, CodeNodes(F, code, rows), F.sub(0, i), m), F.rcp(Pivot(F, i, |rows|)))
  {
    MulRcp(F, Pivot(F, i, |rows|));
    if m == 0 {
      MulZero(F, F.rcp(Pivot(F, i, |rows|)));
    } else {
      DecodeTimes(F, code, rows, i, m - 1);
      TermIdentity(F, code, rows, i, m - 1);
      DecodeTimesStep(F, code, rows, i, m);
    }
  }

  /** One received symbol more in `DecodeTimes`. */
  lemma DecodeTimesStep(F: Field, code: seq<nat>, rows: seq<nat>, i: nat, m: nat)
    requires IsField(F) && Elements(F, code) && Elements(F, rows) && |code| == |rows| <= F.count
    requires DistinctRows(rows, |rows|) && Admissible(F, rows, |rows|) && i < |rows| && 0 < m <= |rows|
    requires Distinct(CodeNodes(F, code, rows))
    requires DecodeSum(F, code, rows, i, m - 1)
          == F.mul(Partial(F, CodeNodes(F, code, rows), F.sub(0, i), m - 1), F.rcp(Pivot(F, i, |rows|)))
    requires F.mul(code[m - 1], Inverse(F, rows, i, m - 1, |rows|))
          == F.mul(Term(F, CodeNodes(F, code, rows), m - 1, F.sub(0, i)), F.rcp(Pivot(F, i, |rows|)))
    ensures DecodeSum(F, code, rows, i, m)
         == F.mul(Partial(F, CodeNodes(F, code, rows), F.sub(0, i), m), F.rcp(Pivot(F, i, |rows|)))
  {
    var nodes := CodeNodes(F, code, rows);
    var q := F.rcp(Pivot(F, i, |rows|));
    MulRcp(F, Pivot(F, i, |rows|));
    SumTimes(F, DecodeSum(F, code, rows, i, m - 1), Partial(F, nodes, F.sub(0, i), m - 1),
             F.mul(code[m - 1], Inverse(F, rows, i, m - 1, |rows|)), Term(F, nodes, m - 1, F.sub(0, i)), q);
  }

  /** d + c == (p + t) q when d == p q and c == t q. */
  lemma SumTimes(F: Field, d: nat, p: nat, c: nat, t: nat, q: nat)
    requires IsField(F) && p < F.count && t < F.count && q < F.count
    requires d == F.mul(p, q) && c == F.mul(t, q)
    ensures F.add(d, c) == F.mul(F.add(p, t), q)
  {
    DistribRight(F, p, t, q);
  }

  /**
    The Cauchy coder round trip: when the code symbols are the encoder's sums for K distinct
    admissible rows, the decoder's sum for message symbol i is that symbol.
  */
  lemma RoundTrip(F: Field, mesg: seq<nat>, rows: seq<nat>, code: seq<nat>, i: nat)
    requires IsField(F) && Elements(F, mesg) && Elements(F, rows) && |rows| == |mesg| <= F.count
    requires DistinctRows(rows, |rows|) && Admissible(F, rows, |mesg|) && Encoded(F, mesg, rows, code)
    requires i < |mesg|
    ensures Elements(F, code)
    ensures DecodeSum(F, code, rows, i, |rows|) == mesg[i]
  {
    InterpolateCode(F, mesg, rows, code, i);
    DecodeTimes(F, code, rows, i, |rows|);
    var p := Pivot(F, i, |rows|);
    MulRcp(F, p);
    MulAssoc(F, mesg[i], p, F.rcp(p));
    MulOne(F, mesg[i]);
  }
}
