// `forward` of main.go: the total probability of an observation sequence,
// computed by filling a trellis table[j][i] column by column.
module ForwardEngine {
  import opened Model

  /** Base column: START to row `j`, then emit the first observation. */
  function Initial(h: Hmm, o: seq<string>, j: nat): real
    requires Indexable(h, o) && 0 < |o| && j < Rows(h)
  {
    Tr(h, 0, j + 1) * Em(h, j, o[0])
  }

  /** table[j][i] of forward. */
  function Alpha(h: Hmm, o: seq<string>, j: nat, i: nat): real
    requires Indexable(h, o) && i < |o| && j < Rows(h)
    decreases i, 1, 0
  {
    if i == 0 then Initial(h, o, j)
    else AlphaSum(h, o, j, i, Rows(h))
  }

  /** The running sum `fwP` after the first `k` source rows, each term
      `trP * emP * pfwP` as the inner loop adds it. */
  function AlphaSum(h: Hmm, o: seq<string>, j: nat, i: nat, k: nat): real
    requires Indexable(h, o) && 0 < i < |o| && j < Rows(h) && k <= Rows(h)
    decreases i, 0, k
  {
    if k == 0 then 0.0
    else AlphaSum(h, o, j, i, k - 1) + Tr(h, k, j + 1) * Em(h, j, o[i]) * Alpha(h, o, k - 1, i - 1)
  }

  /** The value forward returns: the last column's rows 0 and 1. */
  function ForwardProb(h: Hmm, o: seq<string>): real
    requires Indexable(h, o) && 0 < |o| && Rows(h) == 2
  {
    Alpha(h, o, 0, |o| - 1) + Alpha(h, o, 1, |o| - 1)
  }

  /** forward. The Go code allocates exactly rows 0 and 1 and reads column
      len(oSeq)-1, so it needs three entries in Q and at least one observation. */
  method Forward(h: Hmm, oSeq: seq<string>) returns (p: real)
    requires |h.Q| == 3 && 0 < |oSeq| && Indexable(h, oSeq)
    ensures p == ForwardProb(h, oSeq)
    ensures p == Alpha(h, oSeq, 0, |oSeq| - 1) + Alpha(h, oSeq, 1, |oSeq| - 1)
  {
    var n := |h.Q| - 1;
    var table := new real[n, |oSeq|];
    for i := 0 to |oSeq|
      invariant forall r, c :: 0 <= r < n && 0 <= c < i ==> table[r, c] == Alpha(h, oSeq, r, c)
    {
      for j := 0 to n
        invariant forall r, c :: 0 <= r < n && 0 <= c < i ==> table[r, c] == Alpha(h, oSeq, r, c)
        invariant forall r :: 0 <= r < j ==> table[r, i] == Alpha(h, oSeq, r, i)
      {
        if i == 0 {
          var trP := h.A[0][j + 1];
          var vIdx := Lookup(h.V, oSeq[i]);
          assert Emits(h, j, oSeq[i]);
          var emP := h.B[j][vIdx];
          var fwP := trP * emP;
          table[j, i] := fwP;
        } else {
          assert ColumnIs(h, oSeq, table, i - 1);
          var fwP := IncomingSum(h, oSeq, table, j, i);
          table[j, i] := fwP;
        }
      }
    }
    p := table[0, |oSeq| - 1] + table[1, |oSeq| - 1];
  }

  /** Column `c` of `table` holds the forward trellis column `c`. */
  ghost predicate ColumnIs(h: Hmm, o: seq<string>, table: array2<real>, c: nat)
    requires Indexable(h, o) && c < |o|
    reads table
  {
    table.Length0 == Rows(h) && table.Length1 == |o| &&
    forall r :: 0 <= r < Rows(h) ==> table[r, c] == Alpha(h, o, r, c)
  }

  /** The inner loop of forward for a later column: add up, over the source
      rows of the previous column, transition times emission times entry. */
  method IncomingSum(h: Hmm, oSeq: seq<string>, table: array2<real>, j: nat, i: nat) returns (fwP: real)
    requires Indexable(h, oSeq) && 0 < i < |oSeq| && j < Rows(h)
    requires ColumnIs(h, oSeq, table, i - 1)
    ensures fwP == Alpha(h, oSeq, j, i)
  {
    var n := table.Length0;
    var vIdx := Lookup(h.V, oSeq[i]);
    assert Emits(h, j, oSeq[i]);
    var pfwP := 0.0;
    fwP := 0.0;
    for k := 0 to n
      invariant fwP == AlphaSum(h, oSeq, j, i, k)
    {
      var trP := h.A[k + 1][j + 1];
      var emP := h.B[j][vIdx];
      pfwP := table[k, i - 1];
      fwP := fwP + trP * emP * pfwP;
    }
  }

  /** A later column is the full running sum (kept apart so that callers
      do not unfold `Alpha` themselves). */
  lemma AlphaUnfold(h: Hmm, o: seq<string>, j: nat, i: nat)
    requires Indexable(h, o) && 0 < i < |o| && j < Rows(h)
    ensures Alpha(h, o, j, i) == AlphaSum(h, o, j, i, Rows(h))
  {
  }

  /** The transition-weighted previous column, without the emission
      factor: sum over source rows k below `k` of A[k+1][j+1] * table[k][i-1]. */
  function Incoming(h: Hmm, o: seq<string>, j: nat, i: nat, k: nat): real
    requires Indexable(h, o) && 0 < i < |o| && j < Rows(h) && k <= Rows(h)
  {
    if k == 0 then 0.0
    else Incoming(h, o, j, i, k - 1) + Tr(h, k, j + 1) * Alpha(h, o, k - 1, i - 1)
  }

  /** The emission factor is the same for every source row, so the running
      sum is B[j][V[o[i]]] times the transition-weighted previous column. */
  lemma {:induction false} AlphaSumFactors(h: Hmm, o: seq<string>, j: nat, i: nat, k: nat)
    requires Indexable(h, o) && 0 < i < |o| && j < Rows(h) && k <= Rows(h)
    ensures AlphaSum(h, o, j, i, k) == Em(h, j, o[i]) * Incoming(h, o, j, i, k)
  {
    if k > 0 {
      AlphaSumFactors(h, o, j, i, k - 1);
      Distribute(AlphaSum(h, o, j, i, k - 1), Incoming(h, o, j, i, k - 1),
                 Em(h, j, o[i]), Tr(h, k, j + 1), Alpha(h, o, k - 1, i - 1));
    }
  }

  /** x + t*e*a == e*(y + t*a) once x == e*y. */
  lemma Distribute(x: real, y: real, e: real, t: real, a: real)
    requires x == e * y
    ensures x + t * e * a == e * (y + t * a)
  {
  }

  /** A single observation: forward is sum_j A[0][j+1] * B[j][V[o0]]. */
  lemma ForwardSingle(h: Hmm, o: seq<string>)
    requires Indexable(h, o) && |o| == 1 && Rows(h) == 2
    ensures ForwardProb(h, o) == Tr(h, 0, 1) * Em(h, 0, o[0]) + Tr(h, 0, 2) * Em(h, 1, o[0])
  {
  }

  /** Non-negative parameters give non-negative trellis entries. */
  lemma {:induction false} AlphaNonNegative(h: Hmm, o: seq<string>, j: nat, i: nat)
    requires Indexable(h, o) && i < |o| && j < Rows(h) && NonNegative(h)
    ensures 0.0 <= Alpha(h, o, j, i)
    decreases i, 1, 0
  {
    if i == 0 {
      var t := Tr(h, 0, j + 1);
      var e := Em(h, j, o[0]);
      assert 0.0 <= t && 0.0 <= e;
      assert 0.0 <= t * e;
    } else {
      AlphaSumNonNegative(h, o, j, i, Rows(h));
    }
  }

  lemma {:induction false} AlphaSumNonNegative(h: Hmm, o: seq<string>, j: nat, i: nat, k: nat)
    requires Indexable(h, o) && 0 < i < |o| && j < Rows(h) && k <= Rows(h) && NonNegative(h)
    ensures 0.0 <= AlphaSum(h, o, j, i, k)
    decreases i, 0, k
  {
    if k > 0 {
      AlphaSumNonNegative(h, o, j, i, k - 1);
      AlphaNonNegative(h, o, k - 1, i - 1);
      var t := Tr(h, k, j + 1);
      var e := Em(h, j, o[i]);
      assert 0.0 <= t && 0.0 <= e;
      assert 0.0 <= t * e;
      assert 0.0 <= t * e * Alpha(h, o, k - 1, i - 1);
    }
  }
}
