// The hidden Markov model record of main.go and the concrete ice-cream model.
//
// The gonum matrices become nested sequences: the transition matrix `A.At(r, c)`
// is `A[r][c]`, and each emission matrix `B[j]` (a 1 x M matrix) is the vector
// `B[j]`, so `B[j].At(0, v)` is `B[j][v]`. Probabilities are `real`.
module Model {

  /** The HMM struct: state-label and observation-symbol maps, transitions, emissions. */
  datatype Hmm = Hmm(
    Q: map<string, int>,      // state labels, "START" included, to indices
    V: map<string, int>,      // observation symbols to indices
    A: seq<seq<real>>,        // A[from][to], row 0 is the start state
    B: seq<seq<real>>         // B[j][v], one emission vector per emitting state
  )

  /** A Go map read: a missing key yields the zero value 0. */
  function Lookup(m: map<string, int>, k: string): (r: int)
    ensures k in m ==> r == m[k]
    ensures k !in m ==> r == 0
  {
    if k in m then m[k] else 0
  }

  /** Number of trellis rows, `len(H.Q)-1`: every state but START. */
  function Rows(h: Hmm): int {
    |h.Q| - 1
  }

  /** Every index that forward and viterbi read while filling a trellis
      for observations `o` is in range (otherwise the Go code panics). */
  predicate Indexable(h: Hmm, o: seq<string>) {
    var n := Rows(h);
    |o| > 0 ==>
      0 <= n && n < |h.A| && n <= |h.B| &&
      (forall r :: 0 <= r <= n ==> n < |h.A[r]|) &&
      (forall i, j :: 0 <= i < |o| && 0 <= j < n ==> Emits(h, j, o[i]))
  }

  /** Emission vector `B[j]` has an entry for symbol `sym`. */
  predicate Emits(h: Hmm, j: nat, sym: string) {
    j < |h.B| && 0 <= Lookup(h.V, sym) < |h.B[j]|
  }

  /** Transition probability from row `from` (0 = START) to column `to`. */
  function Tr(h: Hmm, from: nat, to: nat): real
    requires from < |h.A| && to < |h.A[from]|
  {
    h.A[from][to]
  }

  /** Emission probability of symbol `sym` in trellis row `j` (`B[j].At(0, V[sym])`). */
  function Em(h: Hmm, j: nat, sym: string): real
    requires Emits(h, j, sym)
  {
    h.B[j][Lookup(h.V, sym)]
  }

  /** Weight of entering trellis row `j` at time step `i` from transition row
      `from` (0 is START, k + 1 is trellis row k): A[from][j+1] * B[j][V[o[i]]]. */
  function Link(h: Hmm, o: seq<string>, from: nat, j: nat, i: nat): real
    requires Indexable(h, o) && i < |o| && from <= Rows(h) && j < Rows(h)
  {
    Tr(h, from, j + 1) * Em(h, j, o[i])
  }

  /** All transition and emission probabilities are non-negative. */
  predicate NonNegative(h: Hmm) {
    (forall r, c :: 0 <= r < |h.A| && 0 <= c < |h.A[r]| ==> 0.0 <= h.A[r][c]) &&
    (forall j, v :: 0 <= j < |h.B| && 0 <= v < |h.B[j]| ==> 0.0 <= h.B[j][v])
  }

  /** Sum of a probability vector. */
  function Total(s: seq<real>): real {
    if s == [] then 0.0 else s[0] + Total(s[1..])
  }

  /** Every transition row and every emission vector is a distribution. */
  predicate Stochastic(h: Hmm) {
    NonNegative(h) &&
    (forall r :: 0 <= r < |h.A| ==> Total(h.A[r]) == 1.0) &&
    (forall j :: 0 <= j < |h.B| ==> Total(h.B[j]) == 1.0)
  }

  /** The zero value of the HMM struct, as `var hmm HMM` declares it. */
  function ZeroHmm(): Hmm {
    Hmm(map[], map[], [], [])
  }

  /** initIceCreamHMM: overwrites A, V and Q, and appends two emission
      vectors to whatever B already holds. */
  function InitIceCream(h: Hmm): (r: Hmm)
    ensures |r.B| == |h.B| + 2 && r.B[..|h.B|] == h.B
    ensures r.Q.Keys == {"START", "HOT", "COLD"} && r.V.Keys == {"1", "2", "3"}
    ensures Rows(r) == 2
    ensures |r.A| == 3 && |r.A[0]| == 3 && |r.A[1]| == 3 && |r.A[2]| == 3
    ensures |r.B[|h.B|]| == 3 && |r.B[|h.B| + 1]| == 3
  {
    var r := h.(
      A := [[0.0, 0.8, 0.2], [0.0, 0.7, 0.3], [0.0, 0.4, 0.6]],
      B := h.B + [[0.2, 0.4, 0.4]] + [[0.5, 0.4, 0.1]],
      V := map["1" := 0, "2" := 1, "3" := 2],
      Q := map["START" := 0, "HOT" := 1, "COLD" := 2]);
    assert r.Q.Keys == {"START", "HOT", "COLD"};
    assert |r.Q.Keys| == 3;
    r
  }

  /** The ice-cream model as main builds it: initIceCreamHMM on a zero HMM. */
  function IceCream(): (h: Hmm)
    ensures |h.B| == 2 && Rows(h) == 2
  {
    InitIceCream(ZeroHmm())
  }

  /** An HMM variable whose fields initIceCreamHMM assigns through its
      pointer receiver. */
  class HmmVar {
    var Q: map<string, int>
    var V: map<string, int>
    var A: seq<seq<real>>
    var B: seq<seq<real>>

    /** `var hmm HMM`: every field holds its zero value. */
    constructor ()
      ensures Value() == ZeroHmm()
    {
      Q, V, A, B := map[], map[], [], [];
    }

    /** The record the fields currently hold. */
    function Value(): Hmm
      reads this
    {
      Hmm(Q, V, A, B)
    }

    /** initIceCreamHMM: sets A, appends the two emission vectors to B one
        at a time, then sets V and Q. */
    method InitIceCreamHMM()
      modifies this
      ensures Value() == InitIceCream(old(Value()))
    {
      A := [[0.0, 0.8, 0.2], [0.0, 0.7, 0.3], [0.0, 0.4, 0.6]];
      B := B + [[0.2, 0.4, 0.4]];
      B := B + [[0.5, 0.4, 0.1]];
      V := map["1" := 0, "2" := 1, "3" := 2];
      Q := map["START" := 0, "HOT" := 1, "COLD" := 2];
    }
  }
}
