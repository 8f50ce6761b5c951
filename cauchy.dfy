/**
  The Cauchy erasure coder of cauchy.swift, generic over a field.

  The code word of a message m_0 .. m_{K-1} has the symbols c_r = sum_j m_j / (r + j) for the rows
  r = K .. K+N-1; the columns are j = 0 .. K-1. A receiver that holds K symbols of distinct rows
  multiplies them by the closed-form inverse of the K x K Cauchy matrix of those rows.

  `ProdXY`, `ProdX` and `ProdY` are the values of `prod_xy`, `prod_x` and `prod_y` after each
  iteration of the loop of `cauchyInverse`; `EncodeSum` and `DecodeSum` are the values of
  `recv_code[i]` and `recv_mesg[i]` after each iteration of the inner loops of the encoder and
  the decoder.
*/
module Cauchy {
  import opened Fields

  /** The first n rows are pairwise distinct. */
  predicate DistinctRows(rows: seq<nat>, n: nat)
    requires n <= |rows|
  {
    forall k, l :: 0 <= k < n && 0 <= l < n && k != l ==> rows[k] != rows[l]
  }

  /** No row plus a column below n is zero, so every matrix entry has a reciprocal. */
  ghost predicate Admissible(F: Field, rows: seq<nat>, n: nat)
  {
    forall k, j :: 0 <= k < |rows| && 0 <= j < n ==> F.add(rows[k], j) != 0
  }

  /** The entry of the Cauchy matrix in row i and column j (cauchy.swift:9-12). */
  function Matrix(F: Field, i: nat, j: nat): (r: nat)
    requires IsField(F) && i < F.count && j < F.count && F.add(i, j) != 0
    ensures r < F.count && F.mul(F.add(i, j), r) == 1
  {
    MulRcp(F, F.add(i, j));
    F.rcp(F.add(i, j))
  }

  /** `prod_xy` after m iterations: the product of (rows[j] + k)(rows[k] + i) over k < m. */
  function ProdXY(F: Field, rows: seq<nat>, i: nat, j: nat, m: nat): (r: nat)
    requires IsField(F) && Elements(F, rows) && m <= |rows| && m <= F.count
    requires i < F.count && j < |rows|
    ensures r < F.count
  {
    if m == 0 then 1
    else F.mul(ProdXY(F, rows, i, j, m - 1),
               F.mul(F.add(rows[j], m - 1), F.add(rows[m - 1], i)))
  }

  /** `prod_x` after m iterations: the product of rows[j] - rows[k] over k < m, k != j. */
  function ProdX(F: Field, rows: seq<nat>, j: nat, m: nat): (r: nat)
    requires IsField(F) && Elements(F, rows) && m <= |rows| && j < |rows|
    ensures r < F.count
  {
    if m == 0 then 1
    else if m - 1 == j then ProdX(F, rows, j, m - 1)
    else F.mul(ProdX(F, rows, j, m - 1), F.sub(rows[j], rows[m - 1]))
  }

  /** `prod_y` after m iterations: the product of i - k over k < m, k != i. */
  function ProdY(F: Field, i: nat, m: nat): (r: nat)
    requires IsField(F) && i < F.count && m <= F.count
    ensures r < F.count
  {
    if m == 0 then 1
    else if m - 1 == i then ProdY(F, i, m - 1)
    else F.mul(ProdY(F, i, m - 1), F.sub(i, m - 1))
  }

  /** The divisor (rows[j] + i) * prod_x * prod_y of the inverse entry. */
  function Divisor(F: Field, rows: seq<nat>, i: nat, j: nat, n: nat): (r: nat)
    requires IsField(F) && Elements(F, rows) && n <= |rows| && n <= F.count
    requires i < F.count && j < |rows|
    ensures r < F.count
  {
    F.mul(F.mul(F.add(rows[j], i), ProdX(F, rows, j, n)), ProdY(F, i, n))
  }

  /** With distinct rows and a nonzero rows[j] + i the divisor is nonzero. */
  lemma DivisorNonzero(F: Field, rows: seq<nat>, i: nat, j: nat, n: nat)
    requires IsField(F) && Elements(F, rows) && n <= |rows| && n <= F.count && DistinctRows(rows, n)
    requires i < F.count && j < n && F.add(rows[j], i) != 0
    ensures Divisor(F, rows, i, j, n) != 0
  {
    ProdXNonzero(F, rows, j, n, n);
    ProdYNonzero(F, i, n);
    MulNonzero(F, F.add(rows[j], i), ProdX(F, rows, j, n));
    MulNonzero(F, F.mul(F.add(rows[j], i), ProdX(F, rows, j, n)), ProdY(F, i, n));
  }

  lemma {:induction false} ProdXNonzero(F: Field, rows: seq<nat>, j: nat, n: nat, m: nat)
    requires IsField(F) && Elements(F, rows) && n <= |rows| && DistinctRows(rows, n)
    requires j < n && m <= n
    ensures ProdX(F, rows, j, m) != 0
  {
    if m > 0 {
      ProdXNonzero(F, rows, j, n, m - 1);
      if m - 1 != j {
        SubZero(F, rows[j], rows[m - 1]);
        MulNonzero(F, ProdX(F, rows, j, m - 1), F.sub(rows[j], rows[m - 1]));
      }
    }
  }

  lemma {:induction false} ProdYNonzero(F: Field, i: nat, m: nat)
    requires IsField(F) && i < F.count && m <= F.count
    ensures ProdY(F, i, m) != 0
  {
    if m > 0 {
      ProdYNonzero(F, i, m - 1);
      if m - 1 != i {
        SubZero(F, i, m - 1);
        MulNonzero(F, ProdY(F, i, m - 1), F.sub(i, m - 1));
      }
    }
  }

  /** The entry in row i and column j of the inverse of the Cauchy matrix of the first n rows. */
  function Inverse(F: Field, rows: seq<nat>, i: nat, j: nat, n: nat): (r: nat)
    requires IsField(F) && Elements(F, rows) && n <= |rows| && n <= F.count && DistinctRows(rows, n)
    requires i < F.count && j < n && F.add(rows[j], i) != 0
    ensures r < F.count
  {
    DivisorNonzero(F, rows, i, j, n);
    F.div(ProdXY(F, rows, i, j, n), Divisor(F, rows, i, j, n))
  }

  /**
    cauchyInverse (cauchy.swift:13-27). The division needs a nonzero divisor, which distinct rows
    and a nonzero rows[j] + i guarantee.
  */
  method CauchyInverse(F: Field, rows: seq<nat>, i: nat, j: nat, n: nat) returns (r: nat)
    requires IsField(F) && Elements(F, rows) && n <= |rows| && n <= F.count && DistinctRows(rows, n)
    requires i < F.count && j < n && F.add(rows[j], i) != 0
    ensures r == Inverse(F, rows, i, j, n)
  {
    var col_i := FromInt(F, i);
    var prod_xy, prod_x, prod_y := 1, 1, 1;
    for k := 0 to n
      invariant prod_xy == ProdXY(F, rows, i, j, k)
      invariant prod_x == ProdX(F, rows, j, k)
      invariant prod_y == ProdY(F, i, k)
    {
      var col_k := FromInt(F, k);
      prod_xy := F.mul(prod_xy, F.mul(F.add(rows[j], col_k), F.add(rows[k], col_i)));
      if k != j {
        prod_x := F.mul(prod_x, F.sub(rows[j], rows[k]));
      }
      if k != i {
        prod_y := F.mul(prod_y, F.sub(col_i, col_k));
      }
    }
    DivisorNonzero(F, rows, i, j, n);
    r := F.div(prod_xy, F.mul(F.mul(F.add(rows[j], col_i), prod_x), prod_y));
  }

  // ---------------------------------------------------------------------------------------------
  // Encoding and decoding

  /** `recv_code[i]` once the encoder has added the first m columns for the row `row`. */
  function EncodeSum(F: Field, mesg: seq<nat>, row: nat, m: nat): (r: nat)
    requires IsField(F) && Elements(F, mesg) && m <= |mesg| && |mesg| <= F.count && row < F.count
    requires forall j: nat :: j < |mesg| ==> F.add(row, j) != 0
    ensures r < F.count
  {
    if m == 0 then 0
    else F.add(EncodeSum(F, mesg, row, m - 1), F.mul(mesg[m - 1], Matrix(F, row, m - 1)))
  }

  /** `recv_mesg[i]` once the decoder has added the first m received symbols. */
  function DecodeSum(F: Field, code: seq<nat>, rows: seq<nat>, i: nat, m: nat): (r: nat)
    requires IsField(F) && Elements(F, code) && Elements(F, rows) && |rows| == |code| <= F.count
    requires DistinctRows(rows, |rows|) && Admissible(F, rows, |rows|)
    requires i < |rows| && m <= |rows|
    ensures r < F.count
  {
    if m == 0 then 0
    else F.add(DecodeSum(F, code, rows, i, m - 1), F.mul(code[m - 1], Inverse(F, rows, i, m - 1, |rows|)))
  }

  /** The inner loop of the encoder (cauchy.swift:72-74): one code symbol for the row `row`. */
  method EncodeSymbol(F: Field, mesg: seq<nat>, row: nat) returns (sum: nat)
    requires IsField(F) && Elements(F, mesg) && |mesg| <= F.count && row < F.count
    requires forall j: nat :: j < |mesg| ==> F.add(row, j) != 0
    ensures sum == EncodeSum(F, mesg, row, |mesg|)
  {
    sum := 0;
    for j := 0 to |mesg|
      invariant sum == EncodeSum(F, mesg, row, j)
    {
      sum := F.add(sum, F.mul(mesg[j], Matrix(F, row, j)));
    }
  }

  /** The inner loop of the decoder (cauchy.swift:81-83): message symbol i. */
  method DecodeSymbol(F: Field, code: seq<nat>, rows: seq<nat>, i: nat) returns (sum: nat)
    requires IsField(F) && Elements(F, code) && Elements(F, rows) && |rows| == |code| <= F.count
    requires DistinctRows(rows, |rows|) && Admissible(F, rows, |rows|) && i < |rows|
    ensures sum == DecodeSum(F, code, rows, i, |rows|)
  {
    var n := |rows|;
    sum := 0;
    for j := 0 to n
      invariant sum == DecodeSum(F, code, rows, i, j)
    {
      var c := CauchyInverse(F, rows, i, j, n);
      DecodeSumStep(F, code, rows, i, j, sum, c);
      sum := F.add(sum, F.mul(code[j], c));
    }
  }

  /** One more received symbol: the running sum grows by code[j] times the inverse entry. */
  lemma DecodeSumStep(F: Field, code: seq<nat>, rows: seq<nat>, i: nat, j: nat, sum: nat, c: nat)
    requires IsField(F) && Elements(F, code) && Elements(F, rows) && |rows| == |code| <= F.count
    requires DistinctRows(rows, |rows|) && Admissible(F, rows, |rows|) && i < |rows| && j < |rows|
    requires sum == DecodeSum(F, code, rows, i, j) && c == Inverse(F, rows, i, j, |rows|)
    ensures F.add(sum, F.mul(code[j], c)) == DecodeSum(F, code, rows, i, j + 1)
  {
  }

  /**
    The encoder (cauchy.swift:69-75): symbol i of the received code word is the sum over the
    columns j of mesg[j] times the matrix entry of row rows[i] and column j.
  */
  method Encode(F: Field, mesg: seq<nat>, rows: seq<nat>) returns (code: seq<nat>)
    requires IsField(F) && Elements(F, mesg) && Elements(F, rows) && |mesg| <= F.count
    requires Admissible(F, rows, |mesg|)
    ensures |code| == |rows|
    ensures forall i :: 0 <= i < |rows| ==> code[i] == EncodeSum(F, mesg, rows[i], |mesg|)
  {
    var recv_code: seq<nat> := [];
    for i := 0 to |rows|
      invariant |recv_code| == i
      invariant forall l :: 0 <= l < i ==> recv_code[l] == EncodeSum(F, mesg, rows[l], |mesg|)
    {
      var sum := EncodeSymbol(F, mesg, rows[i]);
      recv_code := recv_code + [sum];
    }
    code := recv_code;
  }

  /**
    The decoder (cauchy.swift:78-84): symbol i of the decoded message is the sum over the
    received symbols j of code[j] times entry (i, j) of the inverse matrix of the received rows.
  */
  method Decode(F: Field, code: seq<nat>, rows: seq<nat>) returns (mesg: seq<nat>)
    requires IsField(F) && Elements(F, code) && Elements(F, rows) && |rows| == |code| <= F.count
    requires DistinctRows(rows, |rows|) && Admissible(F, rows, |rows|)
    ensures |mesg| == |rows|
    ensures forall i :: 0 <= i < |rows| ==> mesg[i] == DecodeSum(F, code, rows, i, |rows|)
  {
    var n := |rows|;
    var recv_mesg: seq<nat> := [];
    for i := 0 to n
      invariant |recv_mesg| == i
      invariant forall l :: 0 <= l < i ==> recv_mesg[l] == DecodeSum(F, code, rows, l, n)
    {
      var sum := DecodeSymbol(F, code, rows, i);
      recv_mesg := recv_mesg + [sum];
    }
    mesg := recv_mesg;
  }
}
