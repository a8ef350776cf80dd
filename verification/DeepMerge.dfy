/** Weights with the least total that needs codes of a given length: the bound on totals is exact. */
module DeepMerge {
  import opened Arithmetic
  import opened MergeTrace
  import opened MergeWeights
  import opened MergeOptimality
  import opened MinimumRedundancy

  /** Nine ones, and m numbers that are each twice a Fibonacci number. */
  function DeepWeights(m: nat): (w: seq<nat>)
    ensures |w| == 9 + m && forall l :: 0 <= l < 9 + m ==> w[l] == if l < 9 then 1 else 2 * Fib(l - 5)
  {
    seq(9 + m, l requires 0 <= l < 9 + m => if l < 9 then 1 else 2 * Fib(l - 5))
  }

  lemma FibRises(a: nat, b: nat)
    requires 2 <= a <= b
    ensures 1 <= Fib(a) <= Fib(b) && (a < b ==> Fib(a) < Fib(b))
    decreases b
  {
    if a < b {
      FibRises(a, b - 1);
      assert Fib(b) == Fib(b - 1) + Fib(b - 2);
      if b >= 4 { FibRises(2, b - 2); }
    } else if a > 2 {
      FibRises(2, a - 1);
    }
  }

  lemma {:induction false} DeepWeightsSorted(m: nat)
    ensures Sorted(DeepWeights(m)) && forall l :: 0 <= l < 9 + m ==> DeepWeights(m)[l] >= 1
  {
    hide Fib;
    var w := DeepWeights(m);
    forall i, j | 0 <= i < j < |w| ensures w[i] <= w[j] {
      if j >= 9 { FibRises(if i < 9 then 2 else i - 5, j - 5); }
    }
    forall l | 0 <= l < |w| ensures w[l] >= 1 { if l >= 9 { FibRises(2, l - 5); } }
  }

  lemma {:induction false} DeepTotal(m: nat)
    ensures Sum(DeepWeights(m)) + 1 == 2 * Fib(m + 5)
  {
    var w := DeepWeights(m);
    if m == 0 {
      SumConstant(w, 1);
    } else {
      DeepTotal(m - 1);
      assert w == DeepWeights(m - 1) + [2 * Fib(m + 3)] by { assert w[8 + m] == 2 * Fib(m + 3); }
      SumSnoc(DeepWeights(m - 1), 2 * Fib(m + 3));
      hide Fib;
      FibSteps(m + 3);
    }
  }

  // ----- the run

  ghost predicate Run(t: Trace, m: nat, x: Weights, depth: seq<nat>, lens: seq<nat>) {
    && LeafDepths(t, 9 + m, depth, lens) && Weighs(t, 9 + m, x) && x.w == DeepWeights(m) && Sum(x.w) < x.modulus
  }

  /** After k steps so many nodes have been taken. */
  function NodesTaken(k: nat): int {
    if k <= 9 then 0 else if k <= 16 then k - 9 else k / 2 - 1
  }

  /** The weights of the nodes. */
  function NodeWeight(p: nat): int {
    if p < 4 then 2 else if p == 4 then 3 else if p == 5 then 4 else if p == 6 then 5 else 2 * Fib(p - 2) - 1
  }

  /** What the run has done after k steps. */
  ghost predicate RunAt(t: Trace, x: Weights, k: nat) {
    k < |t.taken| && t.taken[k] == NodesTaken(k) && k / 2 <= |x.node| && forall p :: 0 <= p < k / 2 ==> x.node[p] == NodeWeight(p)
  }

  lemma FibsBelow(q: nat)
    requires q >= 8
    ensures 2 * Fib(q - 4) <= 2 * Fib(q - 3) - 1
    ensures 2 * Fib(q - 4) + (2 * Fib(q - 3) - 1) == 2 * Fib(q - 2) - 1
  {
    FibRises(q - 4, q - 3);
    assert Fib(q - 2) == Fib(q - 3) + Fib(q - 4);
  }

  lemma SmallFibs()
    ensures Fib(4) == 3 && Fib(5) == 5
  {
  }

  /** Which queue step k takes from. */
  lemma {:induction false} RunChoice(t: Trace, m: nat, x: Weights, depth: seq<nat>, lens: seq<nat>, k: nat)
    requires Run(t, m, x, depth, lens) && RunAt(t, x, k) && k + 1 < |t.taken|
    ensures TakesNode(t, k) <==> 9 <= k <= 15 || (k >= 17 && k % 2 == 1)
    ensures t.taken[k + 1] == NodesTaken(k + 1)
  {
    hide Fib, LeafDepths, Sum;
    assert Choice(t, 9 + m, x, k) && IsItem(t, 9 + m, x, k);
    SmallFibs();
    RunLength(t, m, x, depth, lens);
    if k >= 16 { FibsBelow(k / 2); }
  }

  lemma RunLength(t: Trace, m: nat, x: Weights, depth: seq<nat>, lens: seq<nat>)
    requires Run(t, m, x, depth, lens)
    ensures |t.taken| == 17 + 2 * m
  {
    hide Sum;
  }

  /** And what it takes. */
  lemma {:induction false} RunItem(t: Trace, m: nat, x: Weights, depth: seq<nat>, lens: seq<nat>, k: nat)
    requires Run(t, m, x, depth, lens) && RunAt(t, x, k) && k + 1 < |t.taken|
    ensures k < |x.item|
    ensures x.item[k] == if k <= 8 then 1 else if k <= 15 then NodeWeight(k - 9)
      else if k % 2 == 0 then 2 * Fib(k / 2 - 4) else NodeWeight(k / 2 - 1)
  {
    RunChoice(t, m, x, depth, lens, k);
    hide Fib, LeafDepths, Sum;
    assert IsItem(t, 9 + m, x, k);
  }

  lemma {:induction false} RunStep(t: Trace, m: nat, x: Weights, depth: seq<nat>, lens: seq<nat>, k: nat)
    requires Run(t, m, x, depth, lens) && RunAt(t, x, k) && k + 1 < |t.taken| && (k > 0 ==> RunAt(t, x, k - 1))
    ensures RunAt(t, x, k + 1)
  {
    hide Fib, LeafDepths, Sum, IsItem, Choice, Wrap;
    RunChoice(t, m, x, depth, lens, k);
    if k % 2 == 1 {
      RunItem(t, m, x, depth, lens, k - 1);
      RunItem(t, m, x, depth, lens, k);
      NodeExact(t, 9 + m, x, k / 2);
      SmallFibs();
      if k >= 17 { FibsBelow(k / 2); }
    }
  }

  lemma {:induction false} RunTo(t: Trace, m: nat, x: Weights, depth: seq<nat>, lens: seq<nat>, k: nat)
    requires Run(t, m, x, depth, lens) && k < |t.taken|
    ensures RunAt(t, x, k) && (k > 0 ==> RunAt(t, x, k - 1))
  {
    hide Run, RunAt;
    if k > 0 {
      RunTo(t, m, x, depth, lens, k - 1);
      RunStep(t, m, x, depth, lens, k - 1);
    } else {
      RunStarts(t, m, x, depth, lens);
    }
  }

  lemma RunStarts(t: Trace, m: nat, x: Weights, depth: seq<nat>, lens: seq<nat>)
    requires Run(t, m, x, depth, lens)
    ensures RunAt(t, x, 0)
  {
    hide Sum;
  }

  /** The pair that a node belongs to. */
  lemma {:induction false} RunParent(t: Trace, m: nat, x: Weights, depth: seq<nat>, lens: seq<nat>, i: nat)
    requires Run(t, m, x, depth, lens) && i < 7 + m
    ensures |depth| == 8 + m
    ensures i >= 7 ==> depth[i] == depth[i + 1] + 1
    ensures i < 7 ==> depth[i] == depth[(i + 9) / 2] + 1
  {
    var k := if i < 7 then i + 9 else 2 * i + 3;
    RunTo(t, m, x, depth, lens, k);
    RunChoice(t, m, x, depth, lens, k);
    StepOfItem(t, 9 + m, k);
    assert BelowParent(t, 9 + m, depth, i);
  }

  lemma {:induction false} ChainDepth(t: Trace, m: nat, x: Weights, depth: seq<nat>, lens: seq<nat>, i: nat)
    requires Run(t, m, x, depth, lens) && 7 <= i <= 7 + m
    ensures |depth| == 8 + m && depth[i] == 7 + m - i
    decreases 7 + m - i
  {
    if i < 7 + m {
      RunParent(t, m, x, depth, lens, i);
      ChainDepth(t, m, x, depth, lens, i + 1);
    }
  }

  /** For every length from 4 bits on there are weights whose total is just what a code of that length needs, and which
      get one. */
  lemma {:induction false} DeepCode(m: nat, modulus: nat, lens: seq<nat>)
    requires MergedLengths(DeepWeights(m), modulus, lens) && Sum(DeepWeights(m)) < modulus
    ensures lens != [] && lens[0] == m + 4
    ensures Sum(DeepWeights(m)) + 1 == 2 * Fib(lens[0] + 1)
  {
    var t, x, depth :| IsMerge(DeepWeights(m), modulus, lens, t, x, depth);
    assert Run(t, m, x, depth, lens);
    hide Run, RunAt, Fib, Sum;
    DeepTotal(m);
    ChainDepth(t, m, x, depth, lens, 7);
    RunParent(t, m, x, depth, lens, 6);
    RunParent(t, m, x, depth, lens, 4);
    RunParent(t, m, x, depth, lens, 0);
    FirstTakenIsLeaf(t, 9 + m);
    assert LeafBelowParent(t, 9 + m, depth, lens, 0);
  }
}
