// `viterbi` of main.go: the same trellis as forward with max in place of the
// sum, followed by a per-time-step comparison of rows 0 and 1.
module ViterbiEngine {
  import opened Model
  import opened Maximum
  import ForwardEngine

  /** The product `trP * emP * pfwP` for source row `k`, column `i > 0`, row `j`. */
  function Step(h: Hmm, o: seq<string>, j: nat, i: nat, k: nat): real
    requires Indexable(h, o) && 0 < i < |o| && j < Rows(h) && k < Rows(h)
    decreases i, 0, 0
  {
    Tr(h, k + 1, j + 1) * Em(h, j, o[i]) * Delta(h, o, k, i - 1)
  }

  /** The values appended to `fwP` for column `i > 0`, row `j`: the products
      of the source rows below `k`, in order. */
  function Candidates(h: Hmm, o: seq<string>, j: nat, i: nat, k: nat): (c: seq<real>)
    requires Indexable(h, o) && 0 < i < |o| && j < Rows(h) && k <= Rows(h)
    ensures |c| == k
    decreases i, 1, k
  {
    if k == 0 then []
    else Candidates(h, o, j, i, k - 1) + [Step(h, o, j, i, k - 1)]
  }

  /** table[j][i] of viterbi. */
  function Delta(h: Hmm, o: seq<string>, j: nat, i: nat): real
    requires Indexable(h, o) && i < |o| && j < Rows(h)
    decreases i, 2, 0
  {
    if i == 0 then ForwardEngine.Initial(h, o, j)
    else MaxOf(Candidates(h, o, j, i, Rows(h)))
  }

  /** Column `c` of `table` holds the viterbi trellis column `c`. */
  ghost predicate ColumnIs(h: Hmm, o: seq<string>, table: array2<real>, c: nat)
    requires Indexable(h, o) && c < |o|
    reads table
  {
    table.Length0 == Rows(h) && table.Length1 == |o| &&
    forall r :: 0 <= r < Rows(h) ==> table[r, c] == Delta(h, o, r, c)
  }

  /** The label the backtrace emits for time step `i`. */
  function Label(h: Hmm, o: seq<string>, i: nat): string
    requires Indexable(h, o) && i < |o| && 2 <= Rows(h)
  {
    if Delta(h, o, 0, i) > Delta(h, o, 1, i) then "HOT" else "COLD"
  }

  /** The backtrace after its first `t` appends. */
  function Labels(h: Hmm, o: seq<string>, t: nat): (r: seq<string>)
    requires Indexable(h, o) && t <= |o| && 2 <= Rows(h)
    ensures |r| == t
    ensures forall i :: 0 <= i < t ==> r[i] == Label(h, o, i)
  {
    if t == 0 then [] else Labels(h, o, t - 1) + [Label(h, o, t - 1)]
  }

  /** viterbi. Rows 0 and 1 are the only ones allocated, which the fill loop
      needs as soon as there is an observation; an empty sequence skips
      every loop, so then any Q with at least three entries will do. */
  method Viterbi(h: Hmm, oSeq: seq<string>) returns (backtrace: seq<string>)
    requires 3 <= |h.Q| && (0 < |oSeq| ==> |h.Q| == 3) && Indexable(h, oSeq)
    ensures backtrace == Labels(h, oSeq, |oSeq|)
    ensures |backtrace| == |oSeq|
    ensures forall i :: 0 <= i < |oSeq| ==>
      (backtrace[i] == "HOT" <==> Delta(h, oSeq, 0, i) > Delta(h, oSeq, 1, i)) &&
      (backtrace[i] == "COLD" <==> Delta(h, oSeq, 0, i) <= Delta(h, oSeq, 1, i))
  {
    var table := FillTable(h, oSeq);
    backtrace := Backtrace(table);
    forall t | 0 <= t < |oSeq|
      ensures backtrace[t] == Label(h, oSeq, t)
    {
      assert table[0, t] == Delta(h, oSeq, 0, t) && table[1, t] == Delta(h, oSeq, 1, t);
    }
  }

  /** The trellis loops of viterbi: column by column, row by row, the
      start products for column 0 and `max` of the incoming products after. */
  method FillTable(h: Hmm, oSeq: seq<string>) returns (table: array2<real>)
    requires 2 <= Rows(h) && (0 < |oSeq| ==> Rows(h) == 2) && Indexable(h, oSeq)
    ensures fresh(table)
    ensures table.Length0 == Rows(h) && table.Length1 == |oSeq|
    ensures forall r, c :: 0 <= r < Rows(h) && 0 <= c < |oSeq| ==> table[r, c] == Delta(h, oSeq, r, c)
  {
    var n := |h.Q| - 1;
    table := new real[n, |oSeq|];
    for i := 0 to |oSeq|
      invariant forall r, c :: 0 <= r < n && 0 <= c < i ==> table[r, c] == Delta(h, oSeq, r, c)
    {
      for j := 0 to n
        invariant forall r, c :: 0 <= r < n && 0 <= c < i ==> table[r, c] == Delta(h, oSeq, r, c)
        invariant forall r :: 0 <= r < j ==> table[r, i] == Delta(h, oSeq, r, i)
      {
        if i == 0 {
          var trP := h.A[0][j + 1];
          var vIdx := Lookup(h.V, oSeq[i]);
          assert Emits(h, j, oSeq[i]);
          var emP := h.B[j][vIdx];
          var fwP := trP * emP;
          table[j, i] := fwP;
        } else {
          assert ColumnIs(h, oSeq, table, i - 1);
          var best := IncomingMax(h, oSeq, table, j, i);
          table[j, i] := best;
        }
      }
    }
  }

  /** The backtrace loop of viterbi: for every time step, "HOT" when row 0
      is strictly larger than row 1, otherwise (ties included) "COLD". */
  method Backtrace(table: array2<real>) returns (backtrace: seq<string>)
    requires 2 <= table.Length0
    ensures |backtrace| == table.Length1
    ensures forall t :: 0 <= t < table.Length1 ==>
      (backtrace[t] == "HOT" <==> table[0, t] > table[1, t]) &&
      (backtrace[t] == "COLD" <==> table[0, t] <= table[1, t])
  {
    backtrace := [];
    for i := 0 to table.Length1
      invariant |backtrace| == i
      invariant forall t :: 0 <= t < i ==> backtrace[t] == (if table[0, t] > table[1, t] then "HOT" else "COLD")
    {
      if table[0, i] > table[1, i] {
        backtrace := backtrace + ["HOT"];
      } else {
        backtrace := backtrace + ["COLD"];
      }
    }
  }

  /** The inner loop of viterbi for a later column, then `max` of what it collected. */
  method IncomingMax(h: Hmm, oSeq: seq<string>, table: array2<real>, j: nat, i: nat) returns (best: real)
    requires Indexable(h, oSeq) && 0 < i < |oSeq| && j < Rows(h)
    requires ColumnIs(h, oSeq, table, i - 1)
    ensures best == Delta(h, oSeq, j, i)
  {
    var fwP := IncomingProducts(h, oSeq, table, j, i);
    best := Max(fwP);
  }

  /** The inner loop of viterbi for a later column: collect the product of
      every source row of the previous column into `fwP`, in row order. */
  method IncomingProducts(h: Hmm, oSeq: seq<string>, table: array2<real>, j: nat, i: nat) returns (fwP: seq<real>)
    requires Indexable(h, oSeq) && 0 < i < |oSeq| && j < Rows(h)
    requires ColumnIs(h, oSeq, table, i - 1)
    ensures fwP == Candidates(h, oSeq, j, i, Rows(h))
  {
    var n := table.Length0;
    var vIdx := Lookup(h.V, oSeq[i]);
    assert Emits(h, j, oSeq[i]);
    fwP := [];
    for k := 0 to n
      invariant fwP == Candidates(h, oSeq, j, i, k)
    {
      var trP := h.A[k + 1][j + 1];
      var emP := h.B[j][vIdx];
      var pfwP := table[k, i - 1];
      var p := trP * emP * pfwP;
      assert p == Step(h, oSeq, j, i, k);
      fwP := fwP + [p];
    }
  }

  /** Column 0 of the viterbi trellis is column 0 of the forward trellis. */
  lemma DeltaInitialIsAlphaInitial(h: Hmm, o: seq<string>, j: nat)
    requires Indexable(h, o) && 0 < |o| && j < Rows(h)
    ensures Delta(h, o, j, 0) == ForwardEngine.Alpha(h, o, j, 0)
  {
  }

  /** For a later column, table[j][i] is the largest of the products
      A[k+1][j+1] * B[j][V[o[i]]] * table[k][i-1] over the source rows k. */
  lemma DeltaRecurrence(h: Hmm, o: seq<string>, j: nat, i: nat)
    requires Indexable(h, o) && 0 < i < |o| && j < Rows(h)
    ensures forall k :: 0 <= k < Rows(h) ==> Step(h, o, j, i, k) <= Delta(h, o, j, i)
    ensures exists k :: 0 <= k < Rows(h) && Step(h, o, j, i, k) == Delta(h, o, j, i)
  {
    var c := Candidates(h, o, j, i, Rows(h));
    MaxOfIsMaximum(c);
    forall k | 0 <= k < Rows(h)
      ensures Step(h, o, j, i, k) <= Delta(h, o, j, i)
    {
      CandidateAt(h, o, j, i, Rows(h), k);
    }
    var k := ArgMaxOf(c);
    CandidateAt(h, o, j, i, Rows(h), k);
    assert c[k] == Delta(h, o, j, i);
  }

  /** Entry `m` of the candidates is the product for source row `m`. */
  lemma {:induction false} CandidateAt(h: Hmm, o: seq<string>, j: nat, i: nat, k: nat, m: nat)
    requires Indexable(h, o) && 0 < i < |o| && j < Rows(h) && m < k <= Rows(h)
    ensures Candidates(h, o, j, i, k)[m] == Step(h, o, j, i, m)
  {
    if m < k - 1 {
      CandidateAt(h, o, j, i, k - 1, m);
    }
  }

  /** No observations, no labels. */
  lemma LabelsEmpty(h: Hmm)
    requires 2 <= Rows(h)
    ensures Labels(h, [], 0) == []
  {
  }
}
