// The ice-cream model that main builds, and what forward and viterbi give
// on small observation sequences of it.
module IceCreamExamples {
  import opened Model
  import opened Maximum
  import opened Paths
  import ForwardEngine
  import ViterbiEngine
  import opened Semantics
  import opened MostLikely

  /** Every symbol has an emission entry: "1", "2" and "3" by their index,
      any other symbol by Go's zero value, index 0. */
  lemma IceCreamIndexable(o: seq<string>)
    ensures Indexable(IceCream(), o)
  {
    var h := IceCream();
    forall i, j | 0 <= i < |o| && 0 <= j < 2
      ensures Emits(h, j, o[i])
    {
      if o[i] in h.V {
        assert o[i] == "1" || o[i] == "2" || o[i] == "3";
      }
    }
  }

  /** An unknown symbol is read as "1". */
  lemma UnknownSymbolReadsAsOne(sym: string, j: nat)
    requires sym !in {"1", "2", "3"} && j < 2
    ensures Emits(IceCream(), j, sym) && Em(IceCream(), j, sym) == Em(IceCream(), j, "1")
  {
    assert sym !in IceCream().V;
  }

  /** Every transition row and both emission vectors sum to 1. */
  lemma IceCreamStochastic()
    ensures Stochastic(IceCream())
  {
    TransitionRows();
    EmissionRows();
  }

  /** Each row of A is a distribution. */
  lemma TransitionRows()
    ensures forall r :: 0 <= r < |IceCream().A| ==> Total(IceCream().A[r]) == 1.0
    ensures forall r, c :: 0 <= r < |IceCream().A| && 0 <= c < |IceCream().A[r]| ==> 0.0 <= IceCream().A[r][c]
  {
    var a := IceCream().A;
    assert a == [[0.0, 0.8, 0.2], [0.0, 0.7, 0.3], [0.0, 0.4, 0.6]];
    forall r | 0 <= r < |a|
      ensures Total(a[r]) == 1.0
      ensures forall c :: 0 <= c < |a[r]| ==> 0.0 <= a[r][c]
    {
      TotalOfThree(a[r]);
    }
  }

  /** Each emission vector is a distribution. */
  lemma EmissionRows()
    ensures forall j :: 0 <= j < |IceCream().B| ==> Total(IceCream().B[j]) == 1.0
    ensures forall j, v :: 0 <= j < |IceCream().B| && 0 <= v < |IceCream().B[j]| ==> 0.0 <= IceCream().B[j][v]
  {
    var b := IceCream().B;
    assert b == [[0.2, 0.4, 0.4], [0.5, 0.4, 0.1]];
    forall j | 0 <= j < |b|
      ensures Total(b[j]) == 1.0
      ensures forall v :: 0 <= v < |b[j]| ==> 0.0 <= b[j][v]
    {
      TotalOfThree(b[j]);
    }
  }

  /** The sum of a three-entry vector, and its entries are non-negative
      when all three are. */
  lemma TotalOfThree(s: seq<real>)
    requires |s| == 3
    ensures Total(s) == s[0] + s[1] + s[2]
    ensures 0.0 <= s[0] && 0.0 <= s[1] && 0.0 <= s[2] ==> forall c :: 0 <= c < |s| ==> 0.0 <= s[c]
  {
    assert Total(s[1..][1..][1..]) == 0.0;
    assert Total(s[1..][1..]) == s[2];
    assert Total(s[1..]) == s[1] + s[2];
  }

  /** forward(["3"]) is 0.8 * 0.4 + 0.2 * 0.1. */
  lemma ForwardOfThree()
    ensures Indexable(IceCream(), ["3"])
    ensures ForwardEngine.ForwardProb(IceCream(), ["3"]) == 0.34
  {
    var h := IceCream();
    IceCreamIndexable(["3"]);
    assert Lookup(h.V, "3") == 2;
    ForwardEngine.ForwardSingle(h, ["3"]);
  }

  /** viterbi(["3"]) is ["HOT"]: 0.8 * 0.4 = 0.32 exceeds 0.2 * 0.1 = 0.02. */
  lemma ViterbiOfThree()
    ensures Indexable(IceCream(), ["3"])
    ensures ViterbiEngine.Labels(IceCream(), ["3"], 1) == ["HOT"]
  {
    var h := IceCream();
    IceCreamIndexable(["3"]);
    assert Lookup(h.V, "3") == 2;
    assert ViterbiEngine.Delta(h, ["3"], 0, 0) == 0.32;
    assert ViterbiEngine.Delta(h, ["3"], 1, 0) == 0.02;
  }

  // ---------------------------------------------------------------------
  // Two cool days: observations "1", "1".

  /** The viterbi trellis for ["1", "1"]: column 0 is 0.16 (HOT) and 0.1
      (COLD); column 1 is max(0.0224, 0.008) and max(0.024, 0.03). */
  lemma TrellisOfOneOne()
    ensures Indexable(IceCream(), ["1", "1"])
    ensures ViterbiEngine.Delta(IceCream(), ["1", "1"], 0, 0) == 0.16
    ensures ViterbiEngine.Delta(IceCream(), ["1", "1"], 1, 0) == 0.1
    ensures ViterbiEngine.Candidates(IceCream(), ["1", "1"], 0, 1, 2) == [0.0224, 0.008]
    ensures ViterbiEngine.Candidates(IceCream(), ["1", "1"], 1, 1, 2) == [0.024, 0.03]
    ensures ViterbiEngine.Delta(IceCream(), ["1", "1"], 0, 1) == 0.0224
    ensures ViterbiEngine.Delta(IceCream(), ["1", "1"], 1, 1) == 0.03
  {
    var h, o := IceCream(), ["1", "1"];
    IceCreamIndexable(o);
    assert Lookup(h.V, "1") == 0;
    assert ViterbiEngine.Delta(h, o, 0, 0) == 0.16;
    assert ViterbiEngine.Delta(h, o, 1, 0) == 0.1;
    assert ViterbiEngine.Candidates(h, o, 0, 1, 2) == [0.0224, 0.008];
    assert ViterbiEngine.Candidates(h, o, 1, 1, 2) == [0.024, 0.03];
    assert MaxOf([0.0224, 0.008]) == 0.0224;
    assert MaxOf([0.024, 0.03]) == 0.03;
  }

  /** The two state paths that end in COLD: HOT, COLD weighs
      0.16 * 0.15 = 0.024 and COLD, COLD weighs 0.1 * 0.3 = 0.03. */
  lemma JointsOfOneOne()
    ensures Joint(Weights(IceCream(), ["1", "1"]), [0, 1]) == 0.024
    ensures Joint(Weights(IceCream(), ["1", "1"]), [1, 1]) == 0.03
  {
    var h, o := IceCream(), ["1", "1"];
    IceCreamIndexable(o);
    assert Lookup(h.V, "1") == 0;
    var w := Weights(h, o);
    assert w(0, 0, 0) == 0.16 && w(0, 0, 1) == 0.1;
    assert w(1, 1, 1) == 0.15 && w(1, 2, 1) == 0.3;
    JointOfTwo(w, 0, 1);
    JointOfTwo(w, 1, 1);
  }

  /** The most likely path for ["1", "1"] stays in COLD: COLD has the larger
      final entry, and COLD's larger incoming product comes from COLD. */
  lemma MostLikelyOfOneOne()
    ensures Indexable(IceCream(), ["1", "1"])
    ensures MostLikelyPath(IceCream(), ["1", "1"]) == [1, 1]
  {
    var h, o := IceCream(), ["1", "1"];
    TrellisOfOneOne();
    var c := LastColumn(h, o);
    assert c == [0.0224, 0.03];
    assert ArgMaxOf(c) == 1;
    assert Choice(h, o)(1, 1) == 1;
  }

  /** viterbi(["1", "1"]) labels the steps HOT, COLD, a path lighter than
      COLD, COLD, which is the most likely path. */
  lemma LabelsNotMostLikely()
    ensures Indexable(IceCream(), ["1", "1"])
    ensures ViterbiEngine.Labels(IceCream(), ["1", "1"], 2) == ["HOT", "COLD"]
    ensures Joint(Weights(IceCream(), ["1", "1"]), [0, 1]) < Joint(Weights(IceCream(), ["1", "1"]), [1, 1])
    ensures PathLabels(MostLikelyPath(IceCream(), ["1", "1"])) == ["COLD", "COLD"]
  {
    TrellisOfOneOne();
    JointsOfOneOne();
    MostLikelyOfOneOne();
  }
}
