/** Weights in the two-queue merge: when the leaves come sorted and their sum fits the key
    width, every step takes a lightest item left, so the tree built is a cheapest one. */
module MergeWeights {
  import opened Arithmetic
  import opened HuffmanCost
  import opened MergeTrace

  /** `w` are the leaf weights, `node` the weights of the nodes built so far and `item` the
      weights in the order taken. Weights are kept modulo the width of the key field. */
  datatype Weights = Weights(w: seq<nat>, node: seq<nat>, item: seq<nat>, modulus: nat)

  /** A weight as the key field stores it. */
  function Wrap(v: nat, modulus: nat): (r: nat)
    requires modulus > 0
  {
    v % modulus
  }

  ghost predicate Weighs(t: Trace, n: nat, x: Weights) {
    && Shape(t, n) && |x.w| == n && x.modulus > 0
    && |x.item| == |t.taken| - 1 && NodesAreSums(x)
    && (forall k :: 0 <= k < |x.item| ==> IsItem(t, n, x, k) && Choice(t, n, x, k))
  }

  ghost predicate NodesAreSums(x: Weights) {
    x.modulus > 0 && |x.node| == |x.item| / 2 && forall p :: 0 <= p < |x.node| ==> IsSum(x, p)
  }

  ghost predicate IsSum(x: Weights, p: nat)
    requires x.modulus > 0 && p < |x.node| == |x.item| / 2
  {
    x.node[p] == Wrap(x.item[2 * p] + x.item[2 * p + 1], x.modulus)
  }

  ghost predicate IsItem(t: Trace, n: nat, x: Weights, k: nat)
    requires k < |x.item| && k + 1 < |t.taken|
  {
    && StepShape(t, n, k) && k / 2 <= |x.node| && |x.w| == n
    && x.item[k] == if TakesNode(t, k) then x.node[t.taken[k]] else x.w[k - t.taken[k]]
  }

  /** The comparison made before step k: a node is taken if the leaves are used up or its weight
      is smaller, a leaf if no node is waiting or its weight is not larger. */
  ghost predicate Choice(t: Trace, n: nat, x: Weights, k: nat)
    requires k < |x.item| && k + 1 < |t.taken|
  {
    && t.taken[k] <= k && k / 2 <= |x.node| && |x.w| == n
    && var node, leaf := t.taken[k], k - t.taken[k];
       if TakesNode(t, k) then node < k / 2 && (leaf >= n || x.node[node] < x.w[leaf])
       else leaf < n && (node >= k / 2 || x.w[leaf] <= x.node[node])
  }

  ghost predicate Sorted(s: seq<nat>) {
    forall i, j :: 0 <= i < j < |s| ==> s[i] <= s[j]
  }

  /** Weights of the nodes waiting before step k. */
  ghost function NodesAt(t: Trace, n: nat, x: Weights, k: nat): (r: seq<nat>)
    requires Weighs(t, n, x) && k < |t.taken|
  {
    QueueBounds(t, n, k);
    x.node[t.taken[k]..k / 2]
  }

  /** Weights of the leaves waiting before step k. */
  ghost function LeavesAt(t: Trace, n: nat, x: Weights, k: nat): (r: seq<nat>)
    requires Weighs(t, n, x) && k < |t.taken|
  {
    QueueBounds(t, n, k);
    x.w[k - t.taken[k]..]
  }

  /** Every odd step builds a node. */
  ghost function Built(x: Weights, k: nat): (r: seq<nat>) {
    if k % 2 == 1 && k / 2 < |x.node| then [x.node[k / 2]] else []
  }

  lemma {:induction false} QueueStep(t: Trace, n: nat, x: Weights, k: nat)
    requires Weighs(t, n, x) && k + 1 < |t.taken|
    ensures TakesNode(t, k) ==>
      [x.item[k]] + NodesAt(t, n, x, k + 1) == NodesAt(t, n, x, k) + Built(x, k)
      && NodesAt(t, n, x, k) != [] && NodesAt(t, n, x, k)[0] == x.item[k]
      && LeavesAt(t, n, x, k + 1) == LeavesAt(t, n, x, k)
    ensures !TakesNode(t, k) ==>
      NodesAt(t, n, x, k + 1) == NodesAt(t, n, x, k) + Built(x, k)
      && [x.item[k]] + LeavesAt(t, n, x, k + 1) == LeavesAt(t, n, x, k)
  {
    QueueBounds(t, n, k);
    QueueBounds(t, n, k + 1);
    assert IsItem(t, n, x, k);
  }

  // ----- nothing is lost: the sum of what waits is the sum of the leaves

  lemma {:induction false} SumStep(t: Trace, n: nat, x: Weights, k: nat)
    requires Weighs(t, n, x) && k + 1 < |t.taken|
    ensures Sum(NodesAt(t, n, x, k + 1)) + Sum(LeavesAt(t, n, x, k + 1)) + x.item[k]
         == Sum(NodesAt(t, n, x, k)) + Sum(LeavesAt(t, n, x, k)) + Sum(Built(x, k))
  {
    QueueStep(t, n, x, k);
    var nodes, nodes', leaves, leaves' := NodesAt(t, n, x, k), NodesAt(t, n, x, k + 1), LeavesAt(t, n, x, k), LeavesAt(t, n, x, k + 1);
    SumAppend(nodes, Built(x, k));
    if TakesNode(t, k) {
      SumHead([x.item[k]] + nodes');
    } else {
      SumHead([x.item[k]] + leaves');
    }
  }

  lemma {:induction false} PoolSum(t: Trace, n: nat, x: Weights, p: nat)
    requires Weighs(t, n, x) && p <= |x.node| && Sum(x.w) < x.modulus
    ensures Sum(NodesAt(t, n, x, 2 * p)) + Sum(LeavesAt(t, n, x, 2 * p)) == Sum(x.w)
    decreases p, 0
  {
    if p > 0 {
      assert Sum(Built(x, 2 * p - 1)) == x.node[p - 1];
      hide Sum, Wrap, IsItem, Choice;
      ChildrenFit(t, n, x, p - 1);
      NodeExact(t, n, x, p - 1);
      SumStep(t, n, x, 2 * p - 1);
    }
  }

  lemma {:induction false} ChildrenFit(t: Trace, n: nat, x: Weights, p: nat)
    requires Weighs(t, n, x) && p < |x.node| && Sum(x.w) < x.modulus
    ensures x.item[2 * p] + x.item[2 * p + 1] <= Sum(x.w)
    ensures Sum(NodesAt(t, n, x, 2 * p + 1)) + Sum(LeavesAt(t, n, x, 2 * p + 1)) + x.item[2 * p] == Sum(x.w)
    decreases p, 1
  {
    assert Built(x, 2 * p) == [] && Sum([]) == 0;
    assert |x.item| + 1 == |t.taken| && |x.node| == |x.item| / 2;
    hide Weighs, Sum, NodesAt, LeavesAt, Built;
    PoolSum(t, n, x, p);
    SumStep(t, n, x, 2 * p);
    ItemFits(t, n, x, 2 * p + 1);
  }

  /** A node weighs exactly what its children weigh: no key overflows. */
  lemma {:induction false} NodeExact(t: Trace, n: nat, x: Weights, p: nat)
    requires Weighs(t, n, x) && p < |x.node| && Sum(x.w) < x.modulus
    ensures x.node[p] == x.item[2 * p] + x.item[2 * p + 1] <= Sum(x.w)
    decreases p, 2
  {
    hide Wrap, Sum, IsItem, Choice;
    ChildrenFit(t, n, x, p);
    assert IsSum(x, p);
    SmallWrap(x.item[2 * p] + x.item[2 * p + 1], x.modulus);
  }

  lemma SmallWrap(a: nat, modulus: nat)
    requires a < modulus
    ensures Wrap(a, modulus) == a
  {
  }

  lemma {:induction false} ItemFits(t: Trace, n: nat, x: Weights, k: nat)
    requires Weighs(t, n, x) && k + 1 < |t.taken|
    ensures x.item[k] <= Sum(NodesAt(t, n, x, k)) + Sum(LeavesAt(t, n, x, k))
  {
    QueueStep(t, n, x, k);
    if TakesNode(t, k) {
      SumHead(NodesAt(t, n, x, k));
    } else {
      SumHead(LeavesAt(t, n, x, k));
    }
  }

  // ----- items are taken in ascending order

  ghost predicate NoLighter(s: seq<nat>, v: nat) {
    forall j :: 0 <= j < |s| ==> v <= s[j]
  }

  /** No item waiting before step k is lighter than v. */
  ghost predicate PoolNoLighter(t: Trace, n: nat, x: Weights, k: nat, v: nat)
    requires Weighs(t, n, x) && k < |t.taken|
  {
    NoLighter(NodesAt(t, n, x, k), v) && NoLighter(LeavesAt(t, n, x, k), v)
  }

  lemma {:induction false} ItemIsLeast(t: Trace, n: nat, x: Weights, k: nat)
    requires Weighs(t, n, x) && k + 1 < |t.taken|
    requires Sorted(x.w) && Sorted(x.node[..k / 2])
    ensures PoolNoLighter(t, n, x, k, x.item[k])
  {
    QueueBounds(t, n, k);
    assert IsItem(t, n, x, k) && Choice(t, n, x, k);
    var a, b := t.taken[k], k - t.taken[k];
    var nodes, leaves := NodesAt(t, n, x, k), LeavesAt(t, n, x, k);
    forall j | 0 <= j < |nodes| ensures x.node[a] <= nodes[j] {
      assert nodes[j] == x.node[..k / 2][a + j] && x.node[a] == x.node[..k / 2][a];
    }
    forall j | 0 <= j < |leaves| ensures x.w[b] <= leaves[j] {
      assert leaves[j] == x.w[b + j];
    }
  }

  lemma {:induction false} PoolStepNoLighter(t: Trace, n: nat, x: Weights, k: nat, v: nat)
    requires Weighs(t, n, x) && k + 1 < |t.taken|
    requires PoolNoLighter(t, n, x, k, v) && NoLighter(Built(x, k), v)
    ensures PoolNoLighter(t, n, x, k + 1, v)
    ensures v <= x.item[k]
  {
    QueueStep(t, n, x, k);
    var nodes, nodes', leaves, leaves' := NodesAt(t, n, x, k), NodesAt(t, n, x, k + 1), LeavesAt(t, n, x, k), LeavesAt(t, n, x, k + 1);
    var all := nodes + Built(x, k);
    assert NoLighter(all, v);
    if TakesNode(t, k) {
      forall j | 0 <= j < |nodes'| ensures v <= nodes'[j] { assert nodes'[j] == all[j + 1]; }
    } else {
      forall j | 0 <= j < |leaves'| ensures v <= leaves'[j] { assert leaves'[j] == leaves[j + 1]; }
      assert leaves[0] == x.item[k];
    }
  }

  /** Items are taken lightest first, so nodes are built lightest first. */
  lemma {:induction false} Ascending(t: Trace, n: nat, x: Weights, k: nat)
    requires Weighs(t, n, x) && k < |t.taken|
    requires Sorted(x.w) && Sum(x.w) < x.modulus
    ensures Sorted(x.item[..k]) && Sorted(x.node[..k / 2])
    ensures k > 0 ==> PoolNoLighter(t, n, x, k, x.item[k - 1])
  {
    if k > 0 {
      Ascending(t, n, x, k - 1);
      ItemIsLeast(t, n, x, k - 1);
      BuiltNoLighter(t, n, x, k - 1);
      PoolStepNoLighter(t, n, x, k - 1, x.item[k - 1]);
      if k > 1 {
        NextItem(t, n, x, k - 1, x.item[k - 2]);
        SortedSnoc(x.item, k - 1);
      }
      NodesStaySorted(t, n, x, k);
    }
  }

  lemma {:induction false} BuiltNoLighter(t: Trace, n: nat, x: Weights, k: nat)
    requires Weighs(t, n, x) && k < |x.item| && Sum(x.w) < x.modulus
    ensures NoLighter(Built(x, k), x.item[k])
  {
    if k % 2 == 1 {
      NodeExact(t, n, x, k / 2);
    }
  }

  lemma {:induction false} NodesStaySorted(t: Trace, n: nat, x: Weights, k: nat)
    requires Weighs(t, n, x) && 0 < k < |t.taken| && Sum(x.w) < x.modulus
    requires Sorted(x.item[..k]) && Sorted(x.node[..(k - 1) / 2])
    ensures Sorted(x.node[..k / 2])
  {
    hide Sum, Wrap, IsItem, Choice;
    if k % 2 == 0 && k > 2 {
      NodeExact(t, n, x, k / 2 - 1);
      NodeExact(t, n, x, k / 2 - 2);
      SortedAt(x.item, k, k - 4, k - 2);
      SortedAt(x.item, k, k - 3, k - 1);
      SortedSnoc(x.node, k / 2 - 1);
    }
  }

  lemma NextItem(t: Trace, n: nat, x: Weights, k: nat, v: nat)
    requires Weighs(t, n, x) && k + 1 < |t.taken| && PoolNoLighter(t, n, x, k, v)
    ensures v <= x.item[k]
  {
    QueueStep(t, n, x, k);
    if !TakesNode(t, k) {
      assert LeavesAt(t, n, x, k)[0] == x.item[k];
    }
  }

  lemma SortedAt(s: seq<nat>, k: nat, i: nat, j: nat)
    requires i < j < k <= |s| && Sorted(s[..k])
    ensures s[i] <= s[j]
  {
    assert s[..k][i] <= s[..k][j];
  }

  lemma SortedSnoc(s: seq<nat>, k: nat)
    requires 0 < k < |s| && Sorted(s[..k]) && s[k - 1] <= s[k]
    ensures Sorted(s[..k + 1])
  {
    var r := s[..k + 1];
    forall i, j | 0 <= i < j < |r| ensures r[i] <= r[j] {
      if j < k {
        SortedAt(s, k, i, j);
      } else if i < k - 1 {
        SortedAt(s, k, i, k - 1);
      }
    }
  }
}
