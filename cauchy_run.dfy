/**
  The Cauchy erasure-coding example of cauchy.swift: K message symbols, N candidate rows
  K .. K+N-1, of which K survive the erasures; the K received code symbols are computed directly
  from the message and decoded with the closed-form inverse.

  The message symbols and the choice of received rows, which the example draws at random, are
  parameters here: `symbols` and `picks`.
*/
module CauchyRun {
  import opened Fields
  import opened Example
  import opened Cauchy
  import opened CauchyProof

  /** The candidate rows K .. K+N-1 (`orig_rows`). */
  function CandidateRows(F: Field, k: nat, n: nat): (rows: seq<nat>)
    requires k + n <= F.count
    ensures |rows| == n && Elements(F, rows)
    ensures forall p :: 0 <= p < n ==> rows[p] == k + p
  {
    seq(n, p requires 0 <= p < n => k + p)
  }

  /** Distinct picks of distinct candidate rows give distinct received rows, all admissible. */
  lemma ReceivedRows(F: Field, k: nat, n: nat, picks: seq<nat>)
    requires k + n <= F.count && Picks(picks, n)
    requires Admissible(F, CandidateRows(F, k, n), k)
    ensures Elements(F, Received(CandidateRows(F, k, n), picks))
    ensures DistinctRows(Received(CandidateRows(F, k, n), picks), |picks|)
    ensures Admissible(F, Received(CandidateRows(F, k, n), picks), k)
  {
    var rows := CandidateRows(F, k, n);
    var recv := Received(rows, picks);
    forall a, b | 0 <= a < |picks| && 0 <= b < |picks| && a != b
      ensures recv[a] != recv[b]
    {
      assert recv[a] == k + picks[a] && recv[b] == k + picks[b];
    }
    forall a, j | 0 <= a < |recv| && 0 <= j < k
      ensures F.add(recv[a], j) != 0
    {
      assert recv[a] == rows[picks[a]];
    }
  }

  /**
    The whole example (cauchy.swift:52-90): encode the message for the K received rows, decode
    the K code symbols with the inverse of those rows, and check that the message comes back.
    The rows must be field elements (K + N <= count), and no row plus a column may be zero.
  */
  method Run(F: Field, symbols: seq<nat>, n: nat, picks: seq<nat>) returns (recv_mesg: seq<nat>)
    requires IsField(F) && Elements(F, symbols) && |symbols| + n <= F.count
    requires |picks| == |symbols| && Picks(picks, n)
    requires Admissible(F, CandidateRows(F, |symbols|, n), |symbols|)
    ensures recv_mesg == symbols
  {
    var k := |symbols|;
    var orig_rows := new nat[n](_ => 0);
    for i := 0 to n
      invariant forall l :: 0 <= l < i ==> orig_rows[l] == k + l
    {
      orig_rows[i] := FromInt(F, k + i);
    }
    var rows := orig_rows[..];
    assert rows == CandidateRows(F, k, n);
    var recv_rows := Received(rows, picks);
    ReceivedRows(F, k, n, picks);
    var recv_code := Cauchy.Encode(F, symbols, recv_rows);
    recv_mesg := Cauchy.Decode(F, recv_code, recv_rows);
    forall i | 0 <= i < k
      ensures recv_mesg[i] == symbols[i]
    {
      CauchyProof.RoundTrip(F, symbols, recv_rows, recv_code, i);
    }
  }
}
