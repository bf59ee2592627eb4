// What the forward and viterbi tables of main.go mean in terms of state
// paths: table[j][i] of forward is the total weight of all paths that end
// in row j at time step i, and table[j][i] of viterbi is the weight of the
// heaviest such path.
module Semantics {
  import opened Model
  import opened Maximum
  import opened Paths
  import ForwardEngine
  import ViterbiEngine

  /** The step weights of the model for observations `o`:
      A[from][j+1] * B[j][V[o[i]]], and 0 outside the trellis. */
  function Weights(h: Hmm, o: seq<string>): Weight {
    (i: nat, from: nat, j: nat) =>
      if Indexable(h, o) && i < |o| && from <= Rows(h) && j < Rows(h) then Link(h, o, from, j, i) else 0.0
  }

  /** Inside the trellis a step weight, times any factor, is transition
      times emission times that factor. */
  lemma WeightTimes(h: Hmm, o: seq<string>, i: nat, from: nat, j: nat, x: real)
    requires Indexable(h, o) && i < |o| && from <= Rows(h) && j < Rows(h)
    ensures Weights(h, o)(i, from, j) * x == Tr(h, from, j + 1) * Em(h, j, o[i]) * x
  {
  }

  /** Non-negative parameters give non-negative step weights. */
  lemma WeightsNonNegative(h: Hmm, o: seq<string>)
    requires NonNegative(h)
    ensures forall i, from, j :: 0.0 <= Weights(h, o)(i, from, j)
  {
    forall i: nat, from: nat, j: nat
      ensures 0.0 <= Weights(h, o)(i, from, j)
    {
      if Indexable(h, o) && i < |o| && from <= Rows(h) && j < Rows(h) {
        var t := Tr(h, from, j + 1);
        var e := Em(h, j, o[i]);
        assert 0.0 <= t && 0.0 <= e;
        assert 0.0 <= t * e;
      }
    }
  }

  // ---------------------------------------------------------------------
  // forward

  /** Forward's table[j][i] is the sum of the weights of all paths that end
      in row j at time step i. */
  lemma {:induction false} AlphaIsPathSum(h: Hmm, o: seq<string>, j: nat, i: nat)
    requires Indexable(h, o) && i < |o| && j < Rows(h)
    ensures ForwardEngine.Alpha(h, o, j, i) == PathSum(Weights(h, o), Rows(h), j, i)
    decreases i, 1, 0
  {
    if i == 0 {
      PathSumStart(Weights(h, o), Rows(h), j);
    } else {
      AlphaSumIsViaSum(h, o, j, i, Rows(h));
      ForwardEngine.AlphaUnfold(h, o, j, i);
      PathSumStep(Weights(h, o), Rows(h), j, i);
    }
  }

  /** The running sum after `k` source rows is the path sum restricted to
      paths whose previous step is a row below `k`. */
  lemma {:induction false} AlphaSumIsViaSum(h: Hmm, o: seq<string>, j: nat, i: nat, k: nat)
    requires Indexable(h, o) && 0 < i < |o| && j < Rows(h) && k <= Rows(h)
    ensures ForwardEngine.AlphaSum(h, o, j, i, k) == ViaSum(Weights(h, o), Rows(h), j, i, k)
    decreases i, 0, k
  {
    if k > 0 {
      AlphaSumIsViaSum(h, o, j, i, k - 1);
      AlphaIsPathSum(h, o, k - 1, i - 1);
      AlphaSumStep(h, o, j, i, k);
    }
  }

  /** One source row more on both sides of AlphaSumIsViaSum. */
  lemma AlphaSumStep(h: Hmm, o: seq<string>, j: nat, i: nat, k: nat)
    requires Indexable(h, o) && 0 < i < |o| && j < Rows(h) && 0 < k <= Rows(h)
    requires ForwardEngine.AlphaSum(h, o, j, i, k - 1) == ViaSum(Weights(h, o), Rows(h), j, i, k - 1)
    requires ForwardEngine.Alpha(h, o, k - 1, i - 1) == PathSum(Weights(h, o), Rows(h), k - 1, i - 1)
    ensures ForwardEngine.AlphaSum(h, o, j, i, k) == ViaSum(Weights(h, o), Rows(h), j, i, k)
  {
    WeightTimes(h, o, i, k, j, ForwardEngine.Alpha(h, o, k - 1, i - 1));
  }

  /** The value forward returns is the total weight of every state path
      over the whole observation sequence: the paths ending in row 0 plus
      those ending in row 1. */
  lemma ForwardIsSumOverPaths(h: Hmm, o: seq<string>)
    requires Indexable(h, o) && 0 < |o| && Rows(h) == 2
    ensures ForwardEngine.ForwardProb(h, o)
         == PathSum(Weights(h, o), 2, 0, |o| - 1) + PathSum(Weights(h, o), 2, 1, |o| - 1)
  {
    AlphaIsPathSum(h, o, 0, |o| - 1);
    AlphaIsPathSum(h, o, 1, |o| - 1);
  }

  // ---------------------------------------------------------------------
  // viterbi

  /** Viterbi's trellis as a table over (row, step), 0 outside it. */
  function Deltas(h: Hmm, o: seq<string>): (nat, nat) -> real {
    (j: nat, t: nat) =>
      if Indexable(h, o) && t < |o| && j < Rows(h) then ViterbiEngine.Delta(h, o, j, t) else 0.0
  }

  /** The source row that `max` selects for row `j` of a later column:
      the first one with the largest product. */
  function Choice(h: Hmm, o: seq<string>): (nat, nat) -> nat {
    (j: nat, t: nat) =>
      if Indexable(h, o) && 0 < t < |o| && j < Rows(h)
      then ArgMaxOf(ViterbiEngine.Candidates(h, o, j, t, Rows(h)))
      else 0
  }

  /** The viterbi table bounds every one-step extension of its previous column. */
  lemma DeltasDominate(h: Hmm, o: seq<string>)
    requires Indexable(h, o) && 0 < |o|
    ensures Dominates(Weights(h, o), Deltas(h, o), Rows(h), |o|)
  {
    var w, D, n := Weights(h, o), Deltas(h, o), Rows(h);
    forall j | 0 <= j < n
      ensures w(0, 0, j) <= D(j, 0)
    {
      StartWeight(h, o, j);
    }
    forall t, k, j | 0 < t < |o| && 0 <= k < n && 0 <= j < n
      ensures Bounded(w, D, k, t, j)
    {
      StepWeight(h, o, j, t, k);
      assert ViterbiEngine.Step(h, o, j, t, k) <= ViterbiEngine.Delta(h, o, j, t) by {
        ViterbiEngine.DeltaRecurrence(h, o, j, t);
      }
      assert D(j, t) == ViterbiEngine.Delta(h, o, j, t);
    }
  }

  /** One product of viterbi's inner loop is the step weight applied to
      the previous column. */
  lemma StepWeight(h: Hmm, o: seq<string>, j: nat, t: nat, k: nat)
    requires Indexable(h, o) && 0 < t < |o| && j < Rows(h) && k < Rows(h)
    ensures Weights(h, o)(t, k + 1, j) * Deltas(h, o)(k, t - 1) == ViterbiEngine.Step(h, o, j, t, k)
  {
    var d := ViterbiEngine.Delta(h, o, k, t - 1);
    assert Deltas(h, o)(k, t - 1) == d;
    WeightTimes(h, o, t, k + 1, j, d);
  }

  /** The row `max` selects reaches the viterbi table entry exactly. */
  lemma DeltasAttained(h: Hmm, o: seq<string>)
    requires Indexable(h, o) && 0 < |o|
    ensures Attains(Weights(h, o), Deltas(h, o), Choice(h, o), Rows(h), |o|)
  {
    var w, D, n := Weights(h, o), Deltas(h, o), Rows(h);
    forall j | 0 <= j < n
      ensures w(0, 0, j) == D(j, 0)
    {
      StartWeight(h, o, j);
    }
    forall t, j | 0 < t < |o| && 0 <= j < n
      ensures Choice(h, o)(j, t) < n && Reached(w, D, Choice(h, o)(j, t), t, j)
    {
      ChoiceStep(h, o, j, t);
      StepReached(h, o, j, t, Choice(h, o)(j, t));
    }
  }

  /** A source row whose product is the table entry reaches that entry. */
  lemma StepReached(h: Hmm, o: seq<string>, j: nat, t: nat, k: nat)
    requires Indexable(h, o) && 0 < t < |o| && j < Rows(h) && k < Rows(h)
    requires ViterbiEngine.Step(h, o, j, t, k) == ViterbiEngine.Delta(h, o, j, t)
    ensures Reached(Weights(h, o), Deltas(h, o), k, t, j)
  {
    StepWeight(h, o, j, t, k);
    assert Deltas(h, o)(j, t) == ViterbiEngine.Delta(h, o, j, t);
  }

  /** The row `max` selects gives the product that is the table entry. */
  lemma ChoiceStep(h: Hmm, o: seq<string>, j: nat, t: nat)
    requires Indexable(h, o) && 0 < t < |o| && j < Rows(h)
    ensures Choice(h, o)(j, t) < Rows(h)
    ensures ViterbiEngine.Step(h, o, j, t, Choice(h, o)(j, t)) == ViterbiEngine.Delta(h, o, j, t)
  {
    var c := ViterbiEngine.Candidates(h, o, j, t, Rows(h));
    var k := ArgMaxOf(c);
    assert Choice(h, o)(j, t) == k;
    ViterbiEngine.CandidateAt(h, o, j, t, Rows(h), k);
    MaxOfIsMaximum(c);
    MaxOfUnique(c, c[k]);
  }

  /** The first column: the start weight is viterbi's table entry. */
  lemma StartWeight(h: Hmm, o: seq<string>, j: nat)
    requires Indexable(h, o) && 0 < |o| && j < Rows(h)
    ensures Weights(h, o)(0, 0, j) == Deltas(h, o)(j, 0)
  {
    assert Deltas(h, o)(j, 0) == ForwardEngine.Initial(h, o, j);
  }

  /** The path that the viterbi table's maxima select, read back from step
      `i` in row `j`. */
  function BestPath(h: Hmm, o: seq<string>, j: nat, i: nat): (p: seq<nat>)
    ensures |p| == i + 1 && p[i] == j
  {
    Traceback(Choice(h, o), j, i)
  }

  /** Viterbi's table[j][i] is the largest weight of any path that ends in
      row j at step i: it bounds them all, and the path its maxima select
      attains it. */
  lemma DeltaIsBestPathWeight(h: Hmm, o: seq<string>, j: nat, i: nat)
    requires Indexable(h, o) && NonNegative(h) && i < |o| && j < Rows(h)
    ensures forall p :: EndsAt(p, Rows(h), i, j) ==> Joint(Weights(h, o), p) <= ViterbiEngine.Delta(h, o, j, i)
    ensures EndsAt(BestPath(h, o, j, i), Rows(h), i, j)
    ensures Joint(Weights(h, o), BestPath(h, o, j, i)) == ViterbiEngine.Delta(h, o, j, i)
  {
    var w, D := Weights(h, o), Deltas(h, o);
    DeltasDominate(h, o);
    WeightsNonNegative(h, o);
    forall p | EndsAt(p, Rows(h), i, j)
      ensures Joint(w, p) <= ViterbiEngine.Delta(h, o, j, i)
    {
      JointBounded(w, D, Rows(h), |o|, p, i);
    }
    DeltasAttained(h, o);
    TracebackAttains(w, D, Choice(h, o), Rows(h), |o|, j, i);
  }

  /** What the backtrace label of step `i` means: "HOT" exactly when the
      heaviest path ending in HOT at step i outweighs every path ending in
      COLD at step i; a tie gives "COLD". */
  lemma LabelMeaning(h: Hmm, o: seq<string>, i: nat)
    requires Indexable(h, o) && NonNegative(h) && i < |o| && Rows(h) == 2
    ensures ViterbiEngine.Label(h, o, i) == "HOT" <==>
      forall p :: EndsAt(p, 2, i, 1) ==> Joint(Weights(h, o), p) < Joint(Weights(h, o), BestPath(h, o, 0, i))
  {
    DeltaIsBestPathWeight(h, o, 0, i);
    DeltaIsBestPathWeight(h, o, 1, i);
  }
}
