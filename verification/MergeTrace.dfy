/** The tree built by the two-queue merge of Moffat and Katajainen, and what its shape implies.

    n leaves wait in one queue and the nodes already built in another. Step k takes one item
    from the front of a queue; steps 2p and 2p + 1 take the two children of node p. */
module MergeTrace {
  import opened Arithmetic
  import opened HuffmanCost

  /** `taken[k]` is the number of nodes (as opposed to leaves) among the first k items taken.
      Node i is taken at step nodeStep[i], leaf l at step leafStep[l]. */
  datatype Trace = Trace(taken: seq<nat>, nodeStep: seq<nat>, leafStep: seq<nat>)

  ghost predicate TakesNode(t: Trace, k: nat)
    requires k + 1 < |t.taken|
  {
    t.taken[k + 1] == t.taken[k] + 1
  }

  /** The first |taken| - 1 steps of a merge of n leaves. */
  ghost predicate Shape(t: Trace, n: nat) {
    && |t.taken| > 0 && t.taken[0] == 0
    && (forall k :: 0 <= k < |t.taken| - 1 ==> StepShape(t, n, k))
    && |t.nodeStep| == t.taken[|t.taken| - 1]
    && |t.leafStep| + |t.nodeStep| == |t.taken| - 1
    && (forall i :: 0 <= i < |t.nodeStep| ==> t.nodeStep[i] + 1 < |t.taken| && IsNodeStep(t, i, t.nodeStep[i]))
    && (forall l :: 0 <= l < |t.leafStep| ==> t.leafStep[l] + 1 < |t.taken| && IsLeafStep(t, l, t.leafStep[l]))
  }

  ghost predicate IsNodeStep(t: Trace, i: nat, k: nat)
    requires k + 1 < |t.taken|
  {
    TakesNode(t, k) && t.taken[k] == i
  }

  ghost predicate IsLeafStep(t: Trace, l: nat, k: nat)
    requires k + 1 < |t.taken|
  {
    !TakesNode(t, k) && k == t.taken[k] + l
  }

  ghost predicate StepShape(t: Trace, n: nat, k: nat)
    requires k + 1 < |t.taken|
  {
    && t.taken[k] <= k
    && (if TakesNode(t, k) then t.taken[k] < k / 2          // only a node already built
        else t.taken[k + 1] == t.taken[k] && k - t.taken[k] < n)
  }

  /** A finished merge: all n leaves and all nodes but the root have been taken. */
  ghost predicate Finished(t: Trace, n: nat) {
    n >= 2 && Shape(t, n) && |t.taken| == 2 * n - 1 && t.taken[2 * n - 2] == n - 2
  }

  lemma {:induction false} TakenMonotone(t: Trace, n: nat, j: nat, k: nat)
    requires Shape(t, n) && j <= k < |t.taken|
    ensures t.taken[j] <= t.taken[k] <= t.taken[j] + (k - j)
  {
    if j < k {
      TakenMonotone(t, n, j, k - 1);
      assert StepShape(t, n, k - 1);
    }
  }

  /** Only nodes already built, and only the n leaves there are, have been taken. */
  lemma {:induction false} QueueBounds(t: Trace, n: nat, k: nat)
    requires Shape(t, n) && k < |t.taken|
    ensures t.taken[k] <= k / 2 && k <= t.taken[k] + n
  {
    if k > 0 {
      QueueBounds(t, n, k - 1);
      assert StepShape(t, n, k - 1);
    }
  }

  lemma {:induction false} NodeStepBefore(t: Trace, n: nat, i: nat, k: nat)
    requires Shape(t, n) && k < |t.taken| && i < |t.nodeStep|
    ensures t.nodeStep[i] < k <==> i < t.taken[k]
  {
    if t.nodeStep[i] < k {
      TakenMonotone(t, n, t.nodeStep[i] + 1, k);
    } else {
      TakenMonotone(t, n, k, t.nodeStep[i]);
    }
  }

  lemma {:induction false} LeafStepBefore(t: Trace, n: nat, l: nat, k: nat)
    requires Shape(t, n) && k < |t.taken| && l < |t.leafStep|
    ensures t.leafStep[l] < k <==> l < k - t.taken[k]
  {
    assert StepShape(t, n, t.leafStep[l]);
    if t.leafStep[l] < k {
      TakenMonotone(t, n, t.leafStep[l] + 1, k);
    } else {
      TakenMonotone(t, n, k, t.leafStep[l]);
    }
  }

  lemma {:induction false} NodeStepsIncrease(t: Trace, n: nat, i: nat, j: nat)
    requires Shape(t, n) && i < j < |t.nodeStep|
    ensures t.nodeStep[i] < t.nodeStep[j]
  {
    NodeStepBefore(t, n, i, t.nodeStep[j]);
  }

  lemma {:induction false} LeafStepsIncrease(t: Trace, n: nat, i: nat, j: nat)
    requires Shape(t, n) && i < j < |t.leafStep|
    ensures t.leafStep[i] < t.leafStep[j]
  {
    LeafStepBefore(t, n, i, t.leafStep[j]);
  }

  // ----- depths

  lemma {:induction false} ParentIsLater(t: Trace, n: nat, i: nat)
    requires Finished(t, n) && i < n - 2
    ensures i < t.nodeStep[i] / 2 < n - 1
  {
    assert StepShape(t, n, t.nodeStep[i]);
  }

  /** `depth` gives every node one more than its parent, from 0 at the root (node n - 2). */
  ghost predicate NodeDepths(t: Trace, n: nat, depth: seq<nat>) {
    && Finished(t, n) && |depth| == n - 1 && depth[n - 2] == 0
    && (forall i :: 0 <= i < n - 2 ==> BelowParent(t, n, depth, i))
  }

  ghost predicate BelowParent(t: Trace, n: nat, depth: seq<nat>, i: nat)
    requires i < |t.nodeStep| && i < |depth| == n - 1
  {
    t.nodeStep[i] / 2 < n - 1 && depth[i] == depth[t.nodeStep[i] / 2] + 1
  }

  ghost predicate LeafDepths(t: Trace, n: nat, depth: seq<nat>, lens: seq<nat>) {
    && NodeDepths(t, n, depth) && |lens| == n
    && (forall l :: 0 <= l < n ==> LeafBelowParent(t, n, depth, lens, l))
  }

  ghost predicate LeafBelowParent(t: Trace, n: nat, depth: seq<nat>, lens: seq<nat>, l: nat)
    requires l < |t.leafStep| && l < |lens| && |depth| == n - 1
  {
    t.leafStep[l] / 2 < n - 1 && lens[l] == depth[t.leafStep[l] / 2] + 1
  }

  lemma {:induction false} NodeDepthAtMost(t: Trace, n: nat, depth: seq<nat>, i: nat)
    requires NodeDepths(t, n, depth) && i < n - 1
    ensures depth[i] <= n - 2 - i
    decreases n - i
  {
    if i < n - 2 {
      ParentIsLater(t, n, i);
      assert BelowParent(t, n, depth, i);
      NodeDepthAtMost(t, n, depth, t.nodeStep[i] / 2);
    }
  }

  /** Nodes built later are no deeper. */
  lemma {:induction false} NodeDepthsDescend(t: Trace, n: nat, depth: seq<nat>, i: nat, j: nat)
    requires NodeDepths(t, n, depth) && i <= j < n - 1
    ensures depth[i] >= depth[j]
    decreases n - i
  {
    if i < n - 2 { assert BelowParent(t, n, depth, i); }
    if i < j < n - 2 {
      assert BelowParent(t, n, depth, j);
      NodeStepsIncrease(t, n, i, j);
      ParentIsLater(t, n, i);
      NodeDepthsDescend(t, n, depth, t.nodeStep[i] / 2, t.nodeStep[j] / 2);
    }
  }

  lemma {:induction false} LeafDepthsDescend(t: Trace, n: nat, depth: seq<nat>, lens: seq<nat>, i: nat, j: nat)
    requires LeafDepths(t, n, depth, lens) && i <= j < n
    ensures lens[i] >= lens[j]
  {
    if i < j {
      LeafStepsIncrease(t, n, i, j);
      assert LeafBelowParent(t, n, depth, lens, i) && LeafBelowParent(t, n, depth, lens, j);
      NodeDepthsDescend(t, n, depth, t.leafStep[i] / 2, t.leafStep[j] / 2);
    }
  }

  // ----- sums over everything taken

  ghost function NodePart(t: Trace, n: nat, c: seq<nat>, count: nat): (r: seq<nat>)
    requires Shape(t, n) && |c| == |t.taken| - 1 && count <= |t.nodeStep|
    ensures |r| == count
    ensures forall i :: 0 <= i < count ==> r[i] == c[t.nodeStep[i]]
  {
    seq(count, i requires 0 <= i < count => c[t.nodeStep[i]])
  }

  ghost function LeafPart(t: Trace, n: nat, c: seq<nat>, count: nat): (r: seq<nat>)
    requires Shape(t, n) && |c| == |t.taken| - 1 && count <= |t.leafStep|
    ensures |r| == count
    ensures forall l :: 0 <= l < count ==> r[l] == c[t.leafStep[l]]
  {
    seq(count, l requires 0 <= l < count => c[t.leafStep[l]])
  }

  lemma {:induction false} StepOfItem(t: Trace, n: nat, k: nat)
    requires Shape(t, n) && k + 1 < |t.taken|
    ensures TakesNode(t, k) ==> t.taken[k] < |t.nodeStep| && t.nodeStep[t.taken[k]] == k
    ensures !TakesNode(t, k) ==> t.taken[k] <= k && k - t.taken[k] < |t.leafStep| && t.leafStep[k - t.taken[k]] == k
  {
    var steps := |t.taken| - 1;
    assert StepShape(t, n, k);
    TakenMonotone(t, n, k + 1, steps);
    if TakesNode(t, k) {
      NodeStepBefore(t, n, t.taken[k], k);
      NodeStepBefore(t, n, t.taken[k], k + 1);
    } else {
      LeafStepBefore(t, n, k - t.taken[k], k);
      LeafStepBefore(t, n, k - t.taken[k], k + 1);
    }
  }

  lemma {:induction false} TakenBounds(t: Trace, n: nat, k: nat)
    requires Shape(t, n) && k < |t.taken|
    ensures t.taken[k] <= k && t.taken[k] <= |t.nodeStep| && k - t.taken[k] <= |t.leafStep|
  {
    TakenMonotone(t, n, 0, k);
    TakenMonotone(t, n, k, |t.taken| - 1);
  }

  lemma {:induction false} PartGrows(t: Trace, n: nat, c: seq<nat>, k: nat)
    requires Shape(t, n) && |c| == |t.taken| - 1 && k + 1 < |t.taken|
    requires t.taken[k] <= k
    ensures TakesNode(t, k) ==>
      t.taken[k] < |t.nodeStep| && NodePart(t, n, c, t.taken[k] + 1) == NodePart(t, n, c, t.taken[k]) + [c[k]]
    ensures !TakesNode(t, k) ==>
      k - t.taken[k] < |t.leafStep| && LeafPart(t, n, c, k - t.taken[k] + 1) == LeafPart(t, n, c, k - t.taken[k]) + [c[k]]
  {
    StepOfItem(t, n, k);
  }

  /** Summing over the first k steps is summing over the nodes and the leaves taken. */
  lemma {:induction false} SplitSum(t: Trace, n: nat, c: seq<nat>, k: nat)
    requires Shape(t, n) && |c| == |t.taken| - 1 && k < |t.taken|
    ensures t.taken[k] <= |t.nodeStep| && t.taken[k] <= k && k - t.taken[k] <= |t.leafStep|
    ensures Sum(c[..k]) == Sum(NodePart(t, n, c, t.taken[k])) + Sum(LeafPart(t, n, c, k - t.taken[k]))
  {
    TakenBounds(t, n, k);
    if k > 0 {
      SplitSum(t, n, c, k - 1);
      SumTake(c, k - 1);
      SplitStep(t, n, c, k - 1);
    }
  }

  lemma {:induction false} SplitStep(t: Trace, n: nat, c: seq<nat>, k: nat)
    requires Shape(t, n) && |c| == |t.taken| - 1 && k + 1 < |t.taken|
    requires t.taken[k] <= |t.nodeStep| && t.taken[k] <= k && k - t.taken[k] <= |t.leafStep|
    requires t.taken[k + 1] <= |t.nodeStep| && t.taken[k + 1] <= k + 1 && k + 1 - t.taken[k + 1] <= |t.leafStep|
    ensures Sum(NodePart(t, n, c, t.taken[k + 1])) + Sum(LeafPart(t, n, c, k + 1 - t.taken[k + 1]))
         == Sum(NodePart(t, n, c, t.taken[k])) + Sum(LeafPart(t, n, c, k - t.taken[k])) + c[k]
  {
    assert StepShape(t, n, k);
    PartGrows(t, n, c, k);
    if TakesNode(t, k) {
      SumSnoc(NodePart(t, n, c, t.taken[k]), c[k]);
    } else {
      SumSnoc(LeafPart(t, n, c, k - t.taken[k]), c[k]);
    }
  }

  lemma {:induction false} SplitAll(t: Trace, n: nat, c: seq<nat>)
    requires Finished(t, n) && |c| == 2 * n - 2
    ensures Sum(c) == Sum(NodePart(t, n, c, n - 2)) + Sum(LeafPart(t, n, c, n))
  {
    SplitSum(t, n, c, 2 * n - 2);
    assert c[..2 * n - 2] == c;
  }

  /** A sum over all steps, two at a time. */
  lemma {:induction false} SumPairs(c: seq<nat>, pairs: seq<nat>)
    requires |c| == 2 * |pairs|
    requires forall p :: 0 <= p < |pairs| ==> pairs[p] == c[2 * p] + c[2 * p + 1]
    ensures Sum(c) == Sum(pairs)
  {
    if pairs != [] {
      var p := |pairs| - 1;
      SumPairs(c[..2 * p], pairs[..p]);
      SumTake(c, 2 * p);
      SumTake(c, 2 * p + 1);
      assert c[..2 * p + 2] == c;
    }
  }

  // ----- the code space is used up exactly

  /** Depth of the item taken at each step. */
  ghost function ItemDepths(depth: seq<nat>): (r: seq<nat>)
    ensures |r| == 2 * |depth|
    ensures forall k :: 0 <= k < |r| ==> r[k] == depth[k / 2] + 1
  {
    seq(2 * |depth|, k requires 0 <= k < 2 * |depth| => depth[k / 2] + 1)
  }

  lemma {:induction false} FirstTakenIsLeaf(t: Trace, n: nat)
    requires Finished(t, n)
    ensures t.leafStep[0] == 0
  {
    assert StepShape(t, n, 0);
    StepOfItem(t, n, 0);
  }

  lemma {:induction false} DepthsAtMost(t: Trace, n: nat, depth: seq<nat>, lens: seq<nat>, m: nat)
    requires LeafDepths(t, n, depth, lens) && lens[0] <= m
    ensures AllAtMost(lens, m) && AllAtMost(depth, m) && AllAtMost(depth[..n - 2], m)
    ensures AllAtMost(ItemDepths(depth), m)
  {
    forall l | 0 <= l < n ensures lens[l] <= m { LeafDepthsDescend(t, n, depth, lens, 0, l); }
    FirstTakenIsLeaf(t, n);
    assert LeafBelowParent(t, n, depth, lens, 0);
    forall p | 0 <= p < n - 1 ensures depth[p] < m { NodeDepthsDescend(t, n, depth, 0, p); }
  }

  /** Two children take exactly the space of their parent. */
  lemma {:induction false} SharePairs(depth: seq<nat>, m: nat)
    requires AllAtMost(ItemDepths(depth), m) && AllAtMost(depth, m)
    ensures Kraft(ItemDepths(depth), m) == Kraft(depth, m)
  {
    var c, nodes := Shares(ItemDepths(depth), m), Shares(depth, m);
    forall p | 0 <= p < |depth| ensures nodes[p] == c[2 * p] + c[2 * p + 1] {
      assert ItemDepths(depth)[2 * p] == depth[p] + 1;
      assert ItemDepths(depth)[2 * p + 1] == depth[p] + 1;
      assert m - depth[p] == (m - (depth[p] + 1)) + 1;
    }
    SumPairs(c, nodes);
  }

  lemma {:induction false} ItemsAreNodesAndLeaves(t: Trace, n: nat, depth: seq<nat>, lens: seq<nat>, m: nat)
    requires LeafDepths(t, n, depth, lens) && AllAtMost(lens, m) && AllAtMost(ItemDepths(depth), m)
    requires AllAtMost(depth, m) && AllAtMost(depth[..n - 2], m)
    ensures Kraft(ItemDepths(depth), m) == Kraft(depth[..n - 2], m) + Kraft(lens, m)
  {
    var c := Shares(ItemDepths(depth), m);
    SplitAll(t, n, c);
    LeafShares(t, n, depth, lens, m, c);
    NodeShares(t, n, depth, m, c);
  }

  /** The leaf depths form a complete code. */
  lemma {:induction false} LeafDepthsAreComplete(t: Trace, n: nat, depth: seq<nat>, lens: seq<nat>, m: nat)
    requires LeafDepths(t, n, depth, lens) && lens[0] <= m
    ensures AllAtMost(lens, m)
    ensures Kraft(lens, m) == Pow2(m)
  {
    DepthsAtMost(t, n, depth, lens, m);
    ItemsAreNodesAndLeaves(t, n, depth, lens, m);
    SharePairs(depth, m);
    RootShare(depth, depth[..n - 2], m);
  }

  lemma {:induction false} RootShare(depth: seq<nat>, init: seq<nat>, m: nat)
    requires depth == init + [0] && AllAtMost(init, m)
    ensures AllAtMost(depth, m) && Kraft(depth, m) == Kraft(init, m) + Pow2(m)
  {
    KraftSnoc(init, 0, m);
  }

  lemma {:induction false} LeafShares(t: Trace, n: nat, depth: seq<nat>, lens: seq<nat>, m: nat, c: seq<nat>)
    requires LeafDepths(t, n, depth, lens) && AllAtMost(lens, m) && AllAtMost(ItemDepths(depth), m)
    requires c == Shares(ItemDepths(depth), m)
    ensures Sum(LeafPart(t, n, c, n)) == Kraft(lens, m)
  {
    var part, shares := LeafPart(t, n, c, n), Shares(lens, m);
    forall l | 0 <= l < n ensures part[l] == shares[l] {
      assert LeafBelowParent(t, n, depth, lens, l);
      assert ItemDepths(depth)[t.leafStep[l]] == lens[l];
    }
    assert part == shares;
  }

  lemma {:induction false} NodeShares(t: Trace, n: nat, depth: seq<nat>, m: nat, c: seq<nat>)
    requires NodeDepths(t, n, depth) && AllAtMost(depth, m) && AllAtMost(ItemDepths(depth), m)
    requires c == Shares(ItemDepths(depth), m)
    ensures Sum(NodePart(t, n, c, n - 2)) == Kraft(depth[..n - 2], m)
  {
    var part, shares := NodePart(t, n, c, n - 2), Shares(depth[..n - 2], m);
    forall i | 0 <= i < n - 2 ensures part[i] == shares[i] {
      assert BelowParent(t, n, depth, i);
      assert ItemDepths(depth)[t.nodeStep[i]] == depth[i];
    }
    assert part == shares;
  }
}
