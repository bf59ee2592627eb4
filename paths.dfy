// State paths through a trellis of `n` rows and their weight: the reference
// meaning of the forward and viterbi tables. A path lists one trellis row per
// time step. The weights are abstract here: `w(i, from, j)` is the weight of
// entering row `j` at time step `i` from transition row `from`, where 0 is
// the start state and `k + 1` is trellis row `k`.
module Paths {

  type Weight = (nat, nat, nat) -> real

  /** Every step of `p` is a trellis row below `n`. */
  predicate ValidPath(p: seq<nat>, n: int) {
    forall t :: 0 <= t < |p| ==> p[t] < n
  }

  /** `p` is a path through time steps 0..i over rows below `n` that ends in row `j`. */
  predicate EndsAt(p: seq<nat>, n: int, i: nat, j: nat) {
    |p| == i + 1 && p[i] == j && ValidPath(p, n)
  }

  /** Weight of following path `p` from the start through time steps 0..t:
      the product of the weights of its steps. */
  function JointUpTo(w: Weight, p: seq<nat>, t: nat): real
    requires t < |p|
  {
    if t == 0 then w(0, 0, p[0])
    else w(t, p[t - 1] + 1, p[t]) * JointUpTo(w, p, t - 1)
  }

  /** Weight of the whole path `p` (the empty product for the empty path). */
  function Joint(w: Weight, p: seq<nat>): real {
    if p == [] then 1.0 else JointUpTo(w, p, |p| - 1)
  }

  /** Steps past `t` do not matter to the weight up to `t`. */
  lemma {:induction false} JointUpToSnoc(w: Weight, p: seq<nat>, j: nat, t: nat)
    requires t < |p|
    ensures JointUpTo(w, p + [j], t) == JointUpTo(w, p, t)
  {
    var q := p + [j];
    assert q[t] == p[t];
    if t > 0 {
      JointUpToSnoc(w, p, j, t - 1);
      assert q[t - 1] == p[t - 1];
    }
  }

  /** Appending one step multiplies the weight by that step's weight. */
  lemma JointSnoc(w: Weight, p: seq<nat>, j: nat)
    requires 0 < |p|
    ensures Joint(w, p + [j]) == w(|p|, p[|p| - 1] + 1, j) * Joint(w, p)
  {
    var q := p + [j];
    JointUpToSnoc(w, p, j, |p| - 1);
    assert q[|p| - 1] == p[|p| - 1] && q[|p|] == j;
  }

  /** Weight of a two-step path: start into `a`, then from `a` into `b`. */
  lemma JointOfTwo(w: Weight, a: nat, b: nat)
    ensures Joint(w, [a, b]) == w(1, a + 1, b) * w(0, 0, a)
  {
    JointSnoc(w, [a], b);
    assert [a] + [b] == [a, b];
  }

  /** Each path of `ps` extended by row `j`. */
  function Extend(ps: seq<seq<nat>>, j: nat): (r: seq<seq<nat>>)
    ensures |r| == |ps|
  {
    if ps == [] then [] else Extend(ps[..|ps| - 1], j) + [ps[|ps| - 1] + [j]]
  }

  lemma {:induction false} ExtendAt(ps: seq<seq<nat>>, j: nat, m: nat)
    requires m < |ps|
    ensures Extend(ps, j)[m] == ps[m] + [j]
  {
    if m < |ps| - 1 {
      ExtendAt(ps[..|ps| - 1], j, m);
    }
  }

  /** All paths of length `len` over rows below `n` that end in row `j`. */
  function PathsTo(n: nat, len: nat, j: nat): seq<seq<nat>>
    requires 1 <= len
    decreases len, 1, 0
  {
    if len == 1 then [[j]] else PathsVia(n, len, j, n)
  }

  /** Those of them whose step `len - 2` is a row below `k`, ordered by that row. */
  function PathsVia(n: nat, len: nat, j: nat, k: nat): seq<seq<nat>>
    requires 2 <= len
    decreases len, 0, k
  {
    if k == 0 then [] else PathsVia(n, len, j, k - 1) + Extend(PathsTo(n, len - 1, k - 1), j)
  }

  /** Every path of `ps` has length `len` and rows below `n`, and ends in `j`. */
  predicate AllEndAt(ps: seq<seq<nat>>, n: nat, len: nat, j: nat) {
    forall m :: 0 <= m < |ps| ==> |ps[m]| == len && 0 < len && ps[m][len - 1] == j && ValidPath(ps[m], n)
  }

  /** The enumeration is sound: every listed path has the right shape. */
  lemma {:induction false} PathsToShape(n: nat, len: nat, j: nat)
    requires 1 <= len && j < n
    ensures AllEndAt(PathsTo(n, len, j), n, len, j)
    decreases len, 1, 0
  {
    if len > 1 {
      PathsViaShape(n, len, j, n);
    }
  }

  lemma {:induction false} PathsViaShape(n: nat, len: nat, j: nat, k: nat)
    requires 2 <= len && j < n && k <= n
    ensures AllEndAt(PathsVia(n, len, j, k), n, len, j)
    ensures forall m :: 0 <= m < |PathsVia(n, len, j, k)| ==> PathsVia(n, len, j, k)[m][len - 2] < k
    decreases len, 0, k
  {
    if k > 0 {
      PathsViaShape(n, len, j, k - 1);
      var ps := PathsTo(n, len - 1, k - 1);
      PathsToShape(n, len - 1, k - 1);
      var a := PathsVia(n, len, j, k - 1);
      var b := Extend(ps, j);
      forall m | 0 <= m < |b|
        ensures |b[m]| == len && b[m][len - 1] == j && ValidPath(b[m], n) && b[m][len - 2] == k - 1
      {
        ExtendAt(ps, j, m);
      }
      assert PathsVia(n, len, j, k) == a + b;
      forall m | 0 <= m < |a + b|
        ensures |(a + b)[m]| == len && (a + b)[m][len - 1] == j && ValidPath((a + b)[m], n) && (a + b)[m][len - 2] < k
      {
        if m >= |a| {
          assert (a + b)[m] == b[m - |a|];
        }
      }
    }
  }

  /** The enumeration is complete: every path of the right shape is listed. */
  lemma {:induction false} PathsToComplete(n: nat, p: seq<nat>)
    requires 0 < |p| && ValidPath(p, n)
    ensures p in PathsTo(n, |p|, p[|p| - 1])
    decreases |p|, 1
  {
    if |p| == 1 {
      assert p == [p[0]];
    } else {
      assert p[|p| - 2] < n;
      PathsViaComplete(n, p, n);
    }
  }

  lemma {:induction false} PathsViaComplete(n: nat, p: seq<nat>, k: nat)
    requires 1 < |p| && ValidPath(p, n) && p[|p| - 2] < k <= n
    ensures p in PathsVia(n, |p|, p[|p| - 1], k)
    decreases |p|, 0, k
  {
    var len := |p|;
    var j := p[len - 1];
    var q := p[..len - 1];
    if p[len - 2] == k - 1 {
      PathsToComplete(n, q);
      var ps := PathsTo(n, len - 1, k - 1);
      var m :| 0 <= m < |ps| && ps[m] == q;
      ExtendAt(ps, j, m);
      assert q + [j] == p;
      assert p in Extend(ps, j);
    } else {
      PathsViaComplete(n, p, k - 1);
    }
  }

  /** No path is listed twice. */
  predicate Distinct(ps: seq<seq<nat>>) {
    forall a, b :: 0 <= a < b < |ps| ==> ps[a] != ps[b]
  }

  lemma {:induction false} ExtendDistinct(ps: seq<seq<nat>>, j: nat)
    requires Distinct(ps)
    ensures Distinct(Extend(ps, j))
  {
    forall a, b | 0 <= a < b < |ps|
      ensures Extend(ps, j)[a] != Extend(ps, j)[b]
    {
      ExtendAt(ps, j, a);
      ExtendAt(ps, j, b);
      var x, y := ps[a], ps[b];
      assert (x + [j])[..|x|] == x;
      assert (y + [j])[..|y|] == y;
    }
  }

  lemma {:induction false} PathsToDistinct(n: nat, len: nat, j: nat)
    requires 1 <= len && j < n
    ensures Distinct(PathsTo(n, len, j))
    decreases len, 1, 0
  {
    if len > 1 {
      PathsViaDistinct(n, len, j, n);
    }
  }

  lemma {:induction false} PathsViaDistinct(n: nat, len: nat, j: nat, k: nat)
    requires 2 <= len && j < n && k <= n
    ensures Distinct(PathsVia(n, len, j, k))
    decreases len, 0, k
  {
    if k > 0 {
      PathsViaDistinct(n, len, j, k - 1);
      PathsViaShape(n, len, j, k - 1);
      var ps := PathsTo(n, len - 1, k - 1);
      PathsToDistinct(n, len - 1, k - 1);
      PathsToShape(n, len - 1, k - 1);
      ExtendDistinct(ps, j);
      var a := PathsVia(n, len, j, k - 1);
      var b := Extend(ps, j);
      forall m | 0 <= m < |b|
        ensures |b[m]| == len && b[m][len - 2] == k - 1
      {
        ExtendAt(ps, j, m);
      }
      var ab := a + b;
      assert PathsVia(n, len, j, k) == ab;
      forall x: int, y: int | 0 <= x < y < |ab|
        ensures ab[x] != ab[y]
      {
        if y >= |a| && x < |a| {
          assert ab[y] == b[y - |a|];
          assert a[x][len - 2] < k - 1;
        } else if x >= |a| {
          assert ab[x] == b[x - |a|] && ab[y] == b[y - |a|];
        }
      }
    }
  }

  /** Sum of the weights of the first `m` paths of `ps`. */
  function SumUpTo(w: Weight, ps: seq<seq<nat>>, m: nat): real
    requires m <= |ps|
  {
    if m == 0 then 0.0 else SumUpTo(w, ps, m - 1) + Joint(w, ps[m - 1])
  }

  /** Sum of the weights of the paths `ps`. */
  function SumJoint(w: Weight, ps: seq<seq<nat>>): real {
    SumUpTo(w, ps, |ps|)
  }

  lemma {:induction false} SumUpToPrefix(w: Weight, a: seq<seq<nat>>, b: seq<seq<nat>>, m: nat)
    requires m <= |a|
    ensures SumUpTo(w, a + b, m) == SumUpTo(w, a, m)
  {
    if m > 0 {
      SumUpToPrefix(w, a, b, m - 1);
      assert (a + b)[m - 1] == a[m - 1];
    }
  }

  lemma {:induction false} SumUpToSuffix(w: Weight, a: seq<seq<nat>>, b: seq<seq<nat>>, m: nat)
    requires m <= |b|
    ensures SumUpTo(w, a + b, |a| + m) == SumJoint(w, a) + SumUpTo(w, b, m)
  {
    if m == 0 {
      SumUpToPrefix(w, a, b, |a|);
    } else {
      SumUpToSuffix(w, a, b, m - 1);
      assert (a + b)[|a| + m - 1] == b[m - 1];
    }
  }

  /** The sum over a concatenation is the sum of the two sums. */
  lemma SumJointAppend(w: Weight, a: seq<seq<nat>>, b: seq<seq<nat>>)
    ensures SumJoint(w, a + b) == SumJoint(w, a) + SumJoint(w, b)
  {
    assert forall m :: 0 <= m < |a + b| ==> (a + b)[m] == if m < |a| then a[m] else b[m - |a|];
    SumUpToSuffix(w, a, b, |b|);
  }

  /** Extending every path (all of length `len`, ending in row `k`) by row `j`
      scales the sum by the one step weight they all share. */
  lemma SumJointExtend(w: Weight, ps: seq<seq<nat>>, n: nat, len: nat, k: nat, j: nat)
    requires AllEndAt(ps, n, len, k)
    ensures SumJoint(w, Extend(ps, j)) == w(len, k + 1, j) * SumJoint(w, ps)
  {
    SumUpToExtend(w, ps, n, len, k, j, |ps|);
  }

  /** The same for the first `m` paths. */
  lemma {:induction false} SumUpToExtend(w: Weight, ps: seq<seq<nat>>, n: nat, len: nat, k: nat, j: nat, m: nat)
    requires AllEndAt(ps, n, len, k) && m <= |ps|
    ensures SumUpTo(w, Extend(ps, j), m) == w(len, k + 1, j) * SumUpTo(w, ps, m)
  {
    if m > 0 {
      var c := w(len, k + 1, j);
      SumUpToExtend(w, ps, n, len, k, j, m - 1);
      ExtendAt(ps, j, m - 1);
      JointSnoc(w, ps[m - 1], j);
      ScaleSum(c, SumUpTo(w, ps, m - 1), Joint(w, ps[m - 1]));
    }
  }

  lemma ScaleSum(c: real, x: real, y: real)
    ensures c * x + c * y == c * (x + y)
  {
  }

  // ---------------------------------------------------------------------
  // The recurrences that the path sums and the heaviest paths satisfy.

  /** Total weight of the paths over rows below `n` that end in row `j` at step `t`. */
  function PathSum(w: Weight, n: nat, j: nat, t: nat): real {
    SumJoint(w, PathsTo(n, t + 1, j))
  }

  /** The part of PathSum(w, n, j, t) whose step t - 1 is a row below `k`,
      computed from the previous column. */
  function ViaSum(w: Weight, n: nat, j: nat, t: nat, k: nat): real
    requires 0 < t && k <= n
  {
    if k == 0 then 0.0 else ViaSum(w, n, j, t, k - 1) + w(t, k, j) * PathSum(w, n, k - 1, t - 1)
  }

  /** A single step: the start weight. */
  lemma PathSumStart(w: Weight, n: nat, j: nat)
    requires j < n
    ensures PathSum(w, n, j, 0) == w(0, 0, j)
  {
    var ps := PathsTo(n, 1, j);
    assert ps == [[j]];
    assert SumUpTo(w, ps, 1) == SumUpTo(w, ps, 0) + Joint(w, [j]);
  }

  /** A later step: the sum over the source rows of the previous column. */
  lemma PathSumStep(w: Weight, n: nat, j: nat, t: nat)
    requires 0 < t && j < n
    ensures PathSum(w, n, j, t) == ViaSum(w, n, j, t, n)
  {
    ViaSumIsPathSum(w, n, j, t, n);
  }

  /** The listed paths that step from row `k` into `j` carry `k`'s path sum
      times that one step. */
  lemma ExtendedPathSum(w: Weight, n: nat, j: nat, t: nat, k: nat)
    requires 0 < t && k < n
    ensures SumJoint(w, Extend(PathsTo(n, t, k), j)) == w(t, k + 1, j) * PathSum(w, n, k, t - 1)
  {
    PathsToShape(n, t, k);
    SumJointExtend(w, PathsTo(n, t, k), n, t, k, j);
  }

  lemma {:induction false} ViaSumIsPathSum(w: Weight, n: nat, j: nat, t: nat, k: nat)
    requires 0 < t && k <= n
    ensures ViaSum(w, n, j, t, k) == SumJoint(w, PathsVia(n, t + 1, j, k))
  {
    if k > 0 {
      var a := PathsVia(n, t + 1, j, k - 1);
      var e := Extend(PathsTo(n, t, k - 1), j);
      ViaSumIsPathSum(w, n, j, t, k - 1);
      ExtendedPathSum(w, n, j, t, k - 1);
      SumJointAppend(w, a, e);
    }
  }

  /** Stepping from row `k` at step `t - 1` into row `j` does not exceed D(j, t). */
  predicate Bounded(w: Weight, D: (nat, nat) -> real, k: nat, t: nat, j: nat)
    requires 0 < t
  {
    w(t, k + 1, j) * D(k, t - 1) <= D(j, t)
  }

  /** `D` dominates the step weights over `n` rows and `T` time steps:
      D(j, 0) is at least the start weight of row j, and D(j, t) is at least
      the weight of stepping into j from any row k, applied to D(k, t - 1). */
  predicate Dominates(w: Weight, D: (nat, nat) -> real, n: nat, T: nat) {
    (forall j :: 0 <= j < n ==> w(0, 0, j) <= D(j, 0)) &&
    (forall t, k, j :: 0 < t < T && 0 <= k < n && 0 <= j < n ==> Bounded(w, D, k, t, j))
  }

  /** A dominating table bounds the weight of every path through it. */
  lemma {:induction false} JointBounded(w: Weight, D: (nat, nat) -> real, n: nat, T: nat, p: seq<nat>, t: nat)
    requires Dominates(w, D, n, T) && (forall i, f, j :: 0.0 <= w(i, f, j))
    requires t < |p| && t < T && ValidPath(p, n)
    ensures JointUpTo(w, p, t) <= D(p[t], t)
  {
    if t > 0 {
      var k, j := p[t - 1], p[t];
      JointBounded(w, D, n, T, p, t - 1);
      MultiplyMonotone(w(t, k + 1, j), JointUpTo(w, p, t - 1), D(k, t - 1));
      assert Bounded(w, D, k, t, j);
    }
  }

  /** The path read back from row `j` at step `t` by following `choose`,
      which names the row of the previous step for each row and step. */
  function Traceback(choose: (nat, nat) -> nat, j: nat, t: nat): (p: seq<nat>)
    ensures |p| == t + 1 && p[t] == j
    decreases t
  {
    if t == 0 then [j] else Traceback(choose, choose(j, t), t - 1) + [j]
  }

  /** Each step of a traced-back path is the choice made at the step after it. */
  lemma {:induction false} TracebackStep(choose: (nat, nat) -> nat, j: nat, T: nat, t: nat)
    requires 0 < t <= T
    ensures Traceback(choose, j, T)[t - 1] == choose(Traceback(choose, j, T)[t], t)
    decreases T
  {
    var q := Traceback(choose, choose(j, T), T - 1);
    assert Traceback(choose, j, T) == q + [j];
    if t < T {
      TracebackStep(choose, choose(j, T), T - 1, t);
    }
  }

  /** Stepping from row `k` at step `t - 1` into row `j` reaches D(j, t) exactly. */
  predicate Reached(w: Weight, D: (nat, nat) -> real, k: nat, t: nat, j: nat)
    requires 0 < t
  {
    w(t, k + 1, j) * D(k, t - 1) == D(j, t)
  }

  /** `choose` picks, for every row and later step, a previous row below `n`
      through which `D` is reached exactly, and D(j, 0) is the start weight. */
  predicate Attains(w: Weight, D: (nat, nat) -> real, choose: (nat, nat) -> nat, n: nat, T: nat) {
    (forall j :: 0 <= j < n ==> w(0, 0, j) == D(j, 0)) &&
    (forall t, j :: 0 < t < T && 0 <= j < n ==> choose(j, t) < n && Reached(w, D, choose(j, t), t, j))
  }

  /** Following the choices gives a path through the trellis whose weight is `D`. */
  lemma {:induction false} TracebackAttains(w: Weight, D: (nat, nat) -> real, choose: (nat, nat) -> nat, n: nat, T: nat, j: nat, t: nat)
    requires Attains(w, D, choose, n, T) && j < n && t < T
    ensures EndsAt(Traceback(choose, j, t), n, t, j)
    ensures Joint(w, Traceback(choose, j, t)) == D(j, t)
    decreases t
  {
    if t > 0 {
      var k := choose(j, t);
      var q := Traceback(choose, k, t - 1);
      assert Traceback(choose, j, t) == q + [j];
      TracebackAttains(w, D, choose, n, T, k, t - 1);
      JointSnoc(w, q, j);
      assert ValidPath(q + [j], n) by {
        assert forall x :: 0 <= x < t ==> (q + [j])[x] == q[x];
      }
    }
  }

  lemma MultiplyMonotone(c: real, x: real, y: real)
    requires 0.0 <= c && x <= y
    ensures c * x <= c * y
  {
    assert 0.0 <= c * (y - x);
  }
}

