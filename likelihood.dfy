// `likelihood` of main.go: the probability of an observation sequence given
// a fully specified state sequence, as the product of emission probabilities.
module Likelihood {
  import opened Model

  /** Emission row that `likelihood` reads for state label `q`: `B[Q[q]]`
      (the START offset of `Q` is not removed). */
  function StateRow(h: Hmm, q: string): int {
    Lookup(h.Q, q)
  }

  /** Every `B[Q[qSeq[i]]].At(0, V[oSeq[i]])` that `likelihood` reads exists. */
  predicate Readable(h: Hmm, oSeq: seq<string>, qSeq: seq<string>) {
    |oSeq| <= |qSeq| &&
    forall i :: 0 <= i < |oSeq| ==>
      0 <= StateRow(h, qSeq[i]) < |h.B| &&
      0 <= Lookup(h.V, oSeq[i]) < |h.B[StateRow(h, qSeq[i])]|
  }

  /** Product of the first `n` emission factors. */
  function Product(h: Hmm, oSeq: seq<string>, qSeq: seq<string>, n: nat): real
    requires Readable(h, oSeq, qSeq) && n <= |oSeq|
  {
    if n == 0 then 1.0
    else Product(h, oSeq, qSeq, n - 1) * h.B[StateRow(h, qSeq[n - 1])][Lookup(h.V, oSeq[n - 1])]
  }

  /** likelihood: multiplies one emission factor per observation into `p`. */
  method Likelihood(h: Hmm, oSeq: seq<string>, qSeq: seq<string>) returns (p: real)
    requires Readable(h, oSeq, qSeq)
    ensures p == Product(h, oSeq, qSeq, |oSeq|)
  {
    p := 1.0;
    for i := 0 to |oSeq|
      invariant p == Product(h, oSeq, qSeq, i)
    {
      var stateIdx := Lookup(h.Q, qSeq[i]);
      var emissionIdx := Lookup(h.V, oSeq[i]);
      p := p * h.B[stateIdx][emissionIdx];
    }
  }

  /** No observations: the empty product. */
  lemma LikelihoodEmpty(h: Hmm, qSeq: seq<string>)
    ensures Product(h, [], qSeq, 0) == 1.0
  {
  }

  /** The transition matrix is never read: replacing it leaves every partial
      product unchanged. */
  lemma {:induction false} LikelihoodIgnoresTransitions(h: Hmm, a: seq<seq<real>>, oSeq: seq<string>, qSeq: seq<string>, n: nat)
    requires Readable(h, oSeq, qSeq) && n <= |oSeq|
    ensures Readable(h.(A := a), oSeq, qSeq)
    ensures Product(h.(A := a), oSeq, qSeq, n) == Product(h, oSeq, qSeq, n)
  {
    if n > 0 {
      LikelihoodIgnoresTransitions(h, a, oSeq, qSeq, n - 1);
    }
  }

  /** Entries of `B` that are probabilities give a probability. */
  lemma {:induction false} LikelihoodIsProbability(h: Hmm, oSeq: seq<string>, qSeq: seq<string>, n: nat)
    requires Readable(h, oSeq, qSeq) && n <= |oSeq|
    requires forall j, v :: 0 <= j < |h.B| && 0 <= v < |h.B[j]| ==> 0.0 <= h.B[j][v] <= 1.0
    ensures 0.0 <= Product(h, oSeq, qSeq, n) <= 1.0
  {
    if n > 0 {
      LikelihoodIsProbability(h, oSeq, qSeq, n - 1);
      var x := Product(h, oSeq, qSeq, n - 1);
      var f := h.B[StateRow(h, qSeq[n - 1])][Lookup(h.V, oSeq[n - 1])];
      assert 0.0 <= f <= 1.0;
      assert 0.0 <= x * f;
      assert x * f <= x by { assert 0.0 <= x * (1.0 - f); }
    }
  }

  // ---------------------------------------------------------------------
  // The START offset. forward and viterbi give trellis row j the transition
  // row/column j+1, which is the state whose index in Q is j+1, and read its
  // emissions from B[j]. likelihood reads B[Q[q]] instead: one row too far.

  /** Emission row for label `q` consistent with forward and viterbi: `B[Q[q]-1]`. */
  function CorrectedRow(h: Hmm, q: string): int {
    Lookup(h.Q, q) - 1
  }

  predicate CorrectedReadable(h: Hmm, oSeq: seq<string>, qSeq: seq<string>) {
    |oSeq| <= |qSeq| &&
    forall i :: 0 <= i < |oSeq| ==>
      0 <= CorrectedRow(h, qSeq[i]) < |h.B| &&
      0 <= Lookup(h.V, oSeq[i]) < |h.B[CorrectedRow(h, qSeq[i])]|
  }

  /** Product of the first `n` emission factors, read from `B[Q[q]-1]`. */
  function CorrectedProduct(h: Hmm, oSeq: seq<string>, qSeq: seq<string>, n: nat): real
    requires CorrectedReadable(h, oSeq, qSeq) && n <= |oSeq|
  {
    if n == 0 then 1.0
    else CorrectedProduct(h, oSeq, qSeq, n - 1) * h.B[CorrectedRow(h, qSeq[n - 1])][Lookup(h.V, oSeq[n - 1])]
  }

  /** likelihood with the START offset removed from the emission row. */
  method CorrectedLikelihood(h: Hmm, oSeq: seq<string>, qSeq: seq<string>) returns (p: real)
    requires CorrectedReadable(h, oSeq, qSeq)
    ensures p == CorrectedProduct(h, oSeq, qSeq, |oSeq|)
  {
    p := 1.0;
    for i := 0 to |oSeq|
      invariant p == CorrectedProduct(h, oSeq, qSeq, i)
    {
      var stateIdx := Lookup(h.Q, qSeq[i]) - 1;
      var emissionIdx := Lookup(h.V, oSeq[i]);
      p := p * h.B[stateIdx][emissionIdx];
    }
  }

  /** As written, a state sequence containing "COLD" cannot be evaluated on
      the ice-cream model: "COLD" is 2 in Q and B has only rows 0 and 1. */
  lemma ColdOutOfRange(oSeq: seq<string>, qSeq: seq<string>, i: nat)
    requires i < |oSeq| && i < |qSeq| && qSeq[i] == "COLD"
    ensures !Readable(IceCream(), oSeq, qSeq)
  {
    assert StateRow(IceCream(), qSeq[i]) == 2;
  }

  /** As written, "HOT" reads B[1], the vector forward and viterbi use for
      "COLD": P("3" | "HOT") comes out as 0.1 where viterbi's HOT row uses 0.4. */
  lemma HotReadsColdRow()
    ensures Readable(IceCream(), ["3"], ["HOT"])
    ensures Product(IceCream(), ["3"], ["HOT"], 1) == 0.1
    ensures Em(IceCream(), 0, "3") == 0.4
  {
    assert Lookup(IceCream().Q, "HOT") == 1;
    assert Lookup(IceCream().V, "3") == 2;
  }

  /** With the offset removed, every HOT/COLD state sequence of the ice-cream
      model is readable and each factor is the emission of the trellis row
      that forward and viterbi associate with that label. */
  lemma CorrectedMatchesTrellisRows(oSeq: seq<string>, qSeq: seq<string>)
    requires |oSeq| <= |qSeq|
    requires forall i :: 0 <= i < |qSeq| ==> qSeq[i] == "HOT" || qSeq[i] == "COLD"
    ensures CorrectedReadable(IceCream(), oSeq, qSeq)
    ensures forall i :: 0 <= i < |oSeq| ==>
      var j := if qSeq[i] == "HOT" then 0 else 1;
      IceCream().B[CorrectedRow(IceCream(), qSeq[i])][Lookup(IceCream().V, oSeq[i])] == Em(IceCream(), j, oSeq[i])
  {
    var h := IceCream();
    assert Lookup(h.Q, "HOT") == 1 && Lookup(h.Q, "COLD") == 2;
    forall i | 0 <= i < |oSeq|
      ensures 0 <= Lookup(h.V, oSeq[i]) < 3
    {
      if oSeq[i] in h.V {
        assert oSeq[i] == "1" || oSeq[i] == "2" || oSeq[i] == "3";
      }
    }
  }
}
