// What viterbi's backtrace is documented to return, "the most likely state
// sequence": the single heaviest state path, read back from the best final
// row through the source rows that `max` selected at each step.
module MostLikely {
  import opened Model
  import opened Maximum
  import opened Paths
  import ViterbiEngine
  import opened Semantics

  /** The last column of the viterbi table. */
  function LastColumn(h: Hmm, o: seq<string>): (c: seq<real>)
    requires Indexable(h, o) && 0 < |o|
    ensures |c| == Rows(h)
    ensures forall r :: 0 <= r < |c| ==> c[r] == ViterbiEngine.Delta(h, o, r, |o| - 1)
  {
    seq(Rows(h), r requires 0 <= r < Rows(h) => ViterbiEngine.Delta(h, o, r, |o| - 1))
  }

  /** The most likely state path for `o`: from the first row with the
      largest final entry, follow the rows that `max` selected. */
  function MostLikelyPath(h: Hmm, o: seq<string>): (p: seq<nat>)
    requires Indexable(h, o) && 0 < |o| && 0 < Rows(h)
    ensures |p| == |o|
  {
    BestPath(h, o, ArgMaxOf(LastColumn(h, o)), |o| - 1)
  }

  /** No state path over the whole observation sequence weighs more than
      the most likely path, which is itself a path through the trellis. */
  lemma MostLikelyPathIsOptimal(h: Hmm, o: seq<string>)
    requires Indexable(h, o) && NonNegative(h) && 0 < |o| && 0 < Rows(h)
    ensures ValidPath(MostLikelyPath(h, o), Rows(h))
    ensures forall p :: |p| == |o| && ValidPath(p, Rows(h)) ==>
      Joint(Weights(h, o), p) <= Joint(Weights(h, o), MostLikelyPath(h, o))
  {
    var c := LastColumn(h, o);
    var r := ArgMaxOf(c);
    DeltaIsBestPathWeight(h, o, r, |o| - 1);
    forall p | |p| == |o| && ValidPath(p, Rows(h))
      ensures Joint(Weights(h, o), p) <= c[r]
    {
      PathBelowLastColumn(h, o, p);
    }
  }

  /** Every full path weighs at most the last-column entry of its final row,
      hence at most the largest last-column entry. */
  lemma PathBelowLastColumn(h: Hmm, o: seq<string>, p: seq<nat>)
    requires Indexable(h, o) && NonNegative(h) && 0 < |o| && 0 < Rows(h)
    requires |p| == |o| && ValidPath(p, Rows(h))
    ensures Joint(Weights(h, o), p) <= LastColumn(h, o)[ArgMaxOf(LastColumn(h, o))]
  {
    var T := |o| - 1;
    var j := p[T];
    assert EndsAt(p, Rows(h), T, j);
    DeltaIsBestPathWeight(h, o, j, T);
    assert LastColumn(h, o)[j] == ViterbiEngine.Delta(h, o, j, T);
  }

  /** The most likely path ends in the first row with the largest final entry. */
  lemma MostLikelyStart(h: Hmm, o: seq<string>)
    requires Indexable(h, o) && 0 < |o| && 0 < Rows(h)
    ensures MostLikelyPath(h, o)[|o| - 1] == ArgMaxOf(LastColumn(h, o))
  {
  }

  /** Each earlier step of the most likely path is the source row that
      `max` selected for the step after it. */
  lemma MostLikelyStep(h: Hmm, o: seq<string>, t: nat)
    requires Indexable(h, o) && 0 < t < |o| && 0 < Rows(h)
    requires MostLikelyPath(h, o)[t] < Rows(h)
    ensures MostLikelyPath(h, o)[t - 1]
         == ArgMaxOf(ViterbiEngine.Candidates(h, o, MostLikelyPath(h, o)[t], t, Rows(h)))
  {
    var r := ArgMaxOf(LastColumn(h, o));
    assert MostLikelyPath(h, o) == Traceback(Choice(h, o), r, |o| - 1);
    TracebackStep(Choice(h, o), r, |o| - 1, t);
  }

  /** The state label of a trellis row: row 0 is HOT and row 1 is COLD,
      as Q numbers them 1 and 2 after START. */
  function RowLabel(r: nat): string {
    if r == 0 then "HOT" else "COLD"
  }

  /** The labels of the rows of a path, in order. */
  function PathLabels(p: seq<nat>): (r: seq<string>)
    ensures |r| == |p|
    ensures forall i :: 0 <= i < |p| ==> r[i] == RowLabel(p[i])
  {
    if p == [] then [] else PathLabels(p[..|p| - 1]) + [RowLabel(p[|p| - 1])]
  }

  /** Index of the first largest element: the scan of `max`, remembering
      where the kept value came from. */
  method ArgMax(s: seq<real>) returns (k: nat)
    requires |s| > 0
    ensures k == ArgMaxOf(s)
  {
    k := 0;
    for i := 1 to |s|
      invariant k == ArgMaxOf(s[..i])
    {
      assert s[..i + 1][..i] == s[..i];
      if s[i] > s[k] {
        k := i;
      }
    }
    assert s[..|s|] == s;
  }

  /** viterbi with the backtrace its documentation promises: the same
      trellis, then the best final row, then back through the row whose
      product `max` kept at every step. */
  method ViterbiPath(h: Hmm, oSeq: seq<string>) returns (path: seq<string>)
    requires 3 <= |h.Q| && (0 < |oSeq| ==> |h.Q| == 3) && Indexable(h, oSeq)
    ensures |path| == |oSeq|
    ensures 0 < |oSeq| ==> path == PathLabels(MostLikelyPath(h, oSeq))
  {
    if |oSeq| == 0 {
      return [];
    }
    var table := ViterbiEngine.FillTable(h, oSeq);
    var rows := TraceRows(h, oSeq, table);
    path := PathLabels(rows);
  }

  /** The backtrace over a filled table: the first row with the largest
      final entry, then, step by step back, the row whose product `max`
      kept for the row after it. */
  method TraceRows(h: Hmm, oSeq: seq<string>, table: array2<real>) returns (rows: seq<nat>)
    requires Indexable(h, oSeq) && 0 < |oSeq| && 0 < Rows(h)
    requires table.Length0 == Rows(h) && table.Length1 == |oSeq|
    requires forall r, c :: 0 <= r < Rows(h) && 0 <= c < |oSeq| ==> table[r, c] == ViterbiEngine.Delta(h, oSeq, r, c)
    ensures rows == MostLikelyPath(h, oSeq)
  {
    var T := |oSeq| - 1;
    assert ViterbiEngine.ColumnIs(h, oSeq, table, T);
    var last := FinalColumn(h, oSeq, table);
    var j := ArgMax(last);
    ghost var best := MostLikelyPath(h, oSeq);
    MostLikelyStart(h, oSeq);
    rows := [j];
    var t := T;
    while t > 0
      invariant 0 <= t <= T && j < Rows(h)
      invariant rows == best[t..] && j == best[t]
      decreases t
    {
      assert ViterbiEngine.ColumnIs(h, oSeq, table, t - 1);
      MostLikelyStep(h, oSeq, t);
      j := BackStep(h, oSeq, table, j, t);
      PrependStep(best, t);
      t := t - 1;
      rows := [j] + rows;
    }
  }

  /** A suffix one element longer is that element followed by the suffix. */
  lemma PrependStep(s: seq<nat>, t: nat)
    requires 0 < t < |s|
    ensures s[t - 1..] == [s[t - 1]] + s[t..]
  {
  }

  /** The source row whose product `max` keeps for row `j` of column `t`. */
  method BackStep(h: Hmm, oSeq: seq<string>, table: array2<real>, j: nat, t: nat) returns (k: nat)
    requires Indexable(h, oSeq) && 0 < t < |oSeq| && j < Rows(h)
    requires ViterbiEngine.ColumnIs(h, oSeq, table, t - 1)
    ensures k == ArgMaxOf(ViterbiEngine.Candidates(h, oSeq, j, t, Rows(h)))
    ensures k < Rows(h)
  {
    var fwP := ViterbiEngine.IncomingProducts(h, oSeq, table, j, t);
    k := ArgMax(fwP);
  }

  /** The last column of a filled table, row by row. */
  method FinalColumn(h: Hmm, oSeq: seq<string>, table: array2<real>) returns (col: seq<real>)
    requires Indexable(h, oSeq) && 0 < |oSeq|
    requires ViterbiEngine.ColumnIs(h, oSeq, table, |oSeq| - 1)
    ensures col == LastColumn(h, oSeq)
  {
    col := [];
    for r := 0 to table.Length0
      invariant col == LastColumn(h, oSeq)[..r]
    {
      col := col + [table[r, |oSeq| - 1]];
    }
  }
}
