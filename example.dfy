/**
  The erasure-coding example of example.swift: a message of K symbols becomes a code word of N
  symbols by evaluating its interpolating polynomial at 0 .. N-1, and any K of those symbols give
  the message back by interpolating them at 0 .. K-1.

  The message symbols and the choice of received symbols, which the example draws at random, are
  parameters here: `symbols` and `picks`.
*/
module Example {
  import opened Fields
  import opened Polynomials
  import opened Lagrange
  import opened Interpolation

  /** The message as nodes: symbol i sits at position i (`orig_mesg`). */
  function MessageNodes(symbols: seq<nat>): (nodes: seq<Node>)
    ensures |nodes| == |symbols|
    ensures forall i :: 0 <= i < |symbols| ==> nodes[i] == Node(i, symbols[i])
  {
    seq(|symbols|, i requires 0 <= i < |symbols| => Node(i, symbols[i]))
  }

  /** The code word: position i carries the value at i of the polynomial through the message. */
  function Codeword(F: Field, mesg: seq<Node>, n: nat): (code: seq<Node>)
    requires IsField(F) && NodesIn(F, mesg) && Distinct(mesg) && n <= F.count
    ensures |code| == n && NodesIn(F, code)
    ensures forall i :: 0 <= i < n ==> code[i] == Node(i, Interpolate(F, mesg, i))
  {
    if n == 0 then [] else Codeword(F, mesg, n - 1) + [Node(n - 1, Interpolate(F, mesg, n - 1))]
  }

  /** The code is systematic: its first K symbols are the message itself. */
  lemma CodewordIsSystematic(F: Field, symbols: seq<nat>, n: nat)
    requires IsField(F) && Elements(F, symbols) && |symbols| <= n <= F.count
    ensures NodesIn(F, MessageNodes(symbols)) && Distinct(MessageNodes(symbols))
    ensures forall i :: 0 <= i < |symbols| ==> Codeword(F, MessageNodes(symbols), n)[i].y == symbols[i]
  {
    var mesg := MessageNodes(symbols);
    forall i | 0 <= i < |symbols|
      ensures Codeword(F, mesg, n)[i].y == symbols[i]
    {
      InterpolateAtNode(F, mesg, i);
    }
  }

  /**
    The encoder (example.swift:45-49): symbol i of the code word is the interpolation of the
    message at position i.
  */
  method Encode(F: Field, mesg: seq<Node>, n: nat) returns (code: seq<Node>)
    requires IsField(F) && NodesIn(F, mesg) && Distinct(mesg) && n <= F.count
    ensures code == Codeword(F, mesg, n)
  {
    var orig_code := new Node[n](_ => Node(0, 0));
    for i := 0 to n
      invariant forall l :: 0 <= l < i ==> orig_code[l] == Node(l, Interpolate(F, mesg, l))
    {
      var x := FromInt(F, i);
      var y := LagrangeInterpolation(F, mesg, x);
      orig_code[i] := Node(x, y);
    }
    code := orig_code[..];
  }

  /** The received positions: distinct indices into a code word of n symbols. */
  predicate Picks(picks: seq<nat>, n: nat)
  {
    && (forall k :: 0 <= k < |picks| ==> picks[k] < n)
    && (forall k, l :: 0 <= k < |picks| && 0 <= l < |picks| && k != l ==> picks[k] != picks[l])
  }

  /** The symbols that survive the erasures, in the order they were picked (`recv_code`, `recv_rows`). */
  function Received<T>(code: seq<T>, picks: seq<nat>): (recv: seq<T>)
    requires Picks(picks, |code|)
    ensures |recv| == |picks| && forall k :: 0 <= k < |picks| ==> recv[k] == code[picks[k]]
  {
    seq(|picks|, k requires 0 <= k < |picks| => code[picks[k]])
  }

  /**
    The decoder (example.swift:56-60): symbol i of the decoded message is the interpolation of the
    received symbols at position i.
  */
  method Decode(F: Field, recv: seq<Node>, k: nat) returns (recv_mesg: seq<nat>)
    requires IsField(F) && NodesIn(F, recv) && Distinct(recv) && k <= F.count
    ensures |recv_mesg| == k
    ensures forall i :: 0 <= i < k ==> recv_mesg[i] == Interpolate(F, recv, i)
  {
    var out := new nat[k](_ => 0);
    for i := 0 to k
      invariant forall l :: 0 <= l < i ==> out[l] == Interpolate(F, recv, l)
    {
      out[i] := LagrangeInterpolation(F, recv, FromInt(F, i));
    }
    recv_mesg := out[..];
  }

  /**
    Any K symbols of the code word of a K-symbol message determine the message: the received
    symbols have distinct positions, and interpolating them at 0 .. K-1 gives the message back.
  */
  lemma RoundTrip(F: Field, symbols: seq<nat>, n: nat, picks: seq<nat>)
    requires IsField(F) && Elements(F, symbols) && |symbols| <= n <= F.count
    requires |picks| == |symbols| && Picks(picks, n)
    ensures NodesIn(F, MessageNodes(symbols)) && Distinct(MessageNodes(symbols))
    ensures NodesIn(F, Received(Codeword(F, MessageNodes(symbols), n), picks))
    ensures Distinct(Received(Codeword(F, MessageNodes(symbols), n), picks))
    ensures forall i :: 0 <= i < |symbols| ==>
      Interpolate(F, Received(Codeword(F, MessageNodes(symbols), n), picks), i) == symbols[i]
  {
    var mesg := MessageNodes(symbols);
    var P := InterpPoly(F, mesg);
    var recv := Received(Codeword(F, mesg, n), picks);
    forall k | 0 <= k < |recv|
      ensures Eval(F, P, recv[k].x) == recv[k].y
    {
      EvalInterpPoly(F, mesg, picks[k]);
    }
    InterpolateExact(F, recv, P);
    forall i | 0 <= i < |symbols|
      ensures Interpolate(F, recv, i) == symbols[i]
    {
      EvalInterpPoly(F, mesg, i);
      InterpolateAtNode(F, mesg, i);
    }
  }

  /**
    The whole example (example.swift:36-66): encode a message of K symbols into N, keep the K
    symbols at `picks`, decode them, and check that the message comes back.
  */
  method Run(F: Field, symbols: seq<nat>, n: nat, picks: seq<nat>) returns (recv_mesg: seq<nat>)
    requires IsField(F) && Elements(F, symbols) && |symbols| <= n <= F.count
    requires |picks| == |symbols| && Picks(picks, n)
    ensures recv_mesg == symbols
  {
    var k := |symbols|;
    var orig_mesg := new Node[k](_ => Node(0, 0));
    for i := 0 to k
      invariant forall l :: 0 <= l < i ==> orig_mesg[l] == Node(l, symbols[l])
    {
      orig_mesg[i] := Node(FromInt(F, i), symbols[i]);
    }
    var mesg := orig_mesg[..];
    assert mesg == MessageNodes(symbols);
    RoundTrip(F, symbols, n, picks);
    var orig_code := Encode(F, mesg, n);
    var recv_code := Received(orig_code, picks);
    recv_mesg := Decode(F, recv_code, k);
    for i := 0 to k {
      assert mesg[i].y == recv_mesg[i];
    }
  }
}
