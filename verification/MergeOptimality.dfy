/** The finished merge yields a minimum-redundancy code whose depth is bounded by Fibonacci numbers. */
module MergeOptimality {
  import opened Arithmetic
  import opened HuffmanCost
  import opened MergeTrace
  import opened MergeWeights

  ghost function Pool(t: Trace, n: nat, x: Weights, k: nat): multiset<nat>
    requires Weighs(t, n, x) && k < |t.taken|
  {
    multiset(NodesAt(t, n, x, k)) + multiset(LeavesAt(t, n, x, k))
  }

  lemma {:induction false} LeastIsMin(m: multiset<nat>, a: nat)
    requires IsLeast(a, m)
    ensures m != multiset{} && a == Min(m)
  {
    MinIsLeast(m);
  }

  lemma {:induction false} MoveOne(a: multiset<nat>, b: multiset<nat>, u: multiset<nat>, o: multiset<nat>, v: nat)
    requires multiset{v} + a == b + u && v in b
    ensures a + o == b + o - multiset{v} + u
  {
    assert a == b + u - multiset{v} == b - multiset{v} + u;
  }

  /** A queue that loses its head v and gains `built`. */
  lemma {:induction false} QueueMultiset(q: seq<nat>, q': seq<nat>, v: nat, built: seq<nat>, other: multiset<nat>)
    requires q != [] && q[0] == v && [v] + q' == q + built
    ensures v in multiset(q) + other
    ensures multiset(q') + other == multiset(q) + other - multiset{v} + multiset(built)
  {
    assert multiset([v] + q') == multiset{v} + multiset(q');
    assert multiset(q + built) == multiset(q) + multiset(built);
    assert v in q;
    MoveOne(multiset(q'), multiset(q), multiset(built), other, v);
  }

  lemma {:induction false} PoolStep(t: Trace, n: nat, x: Weights, k: nat)
    requires Weighs(t, n, x) && k + 1 < |t.taken|
    ensures x.item[k] in Pool(t, n, x, k)
    ensures Pool(t, n, x, k + 1) == Pool(t, n, x, k) - multiset{x.item[k]} + multiset(Built(x, k))
  {
    QueueStep(t, n, x, k);
    var nodes, nodes', leaves, leaves' := NodesAt(t, n, x, k), NodesAt(t, n, x, k + 1), LeavesAt(t, n, x, k), LeavesAt(t, n, x, k + 1);
    if TakesNode(t, k) {
      QueueMultiset(nodes, nodes', x.item[k], Built(x, k), multiset(leaves));
    } else {
      QueueMultiset(leaves, leaves', x.item[k], [], multiset(nodes + Built(x, k)));
      assert multiset(nodes + Built(x, k)) == multiset(nodes) + multiset(Built(x, k));
    }
  }

  lemma {:induction false} PoolLeast(t: Trace, n: nat, x: Weights, k: nat)
    requires Weighs(t, n, x) && k + 1 < |t.taken| && PoolNoLighter(t, n, x, k, x.item[k])
    ensures IsLeast(x.item[k], Pool(t, n, x, k))
  {
    PoolStep(t, n, x, k);
    var nodes, leaves := NodesAt(t, n, x, k), LeavesAt(t, n, x, k);
    forall y | y in Pool(t, n, x, k) ensures x.item[k] <= y {
      assert y in nodes || y in leaves;
    }
  }

  lemma {:induction false} EvenStep(t: Trace, n: nat, x: Weights, p: nat)
    requires Weighs(t, n, x) && p < |x.node|
    ensures Pool(t, n, x, 2 * p + 1) == Pool(t, n, x, 2 * p) - multiset{x.item[2 * p]}
  {
    PoolStep(t, n, x, 2 * p);
    hide Pool;
    assert multiset(Built(x, 2 * p)) == multiset{};
  }

  lemma {:induction false} OddStep(t: Trace, n: nat, x: Weights, p: nat)
    requires Weighs(t, n, x) && p < |x.node|
    ensures Pool(t, n, x, 2 * p + 2) == Pool(t, n, x, 2 * p + 1) - multiset{x.item[2 * p + 1]} + multiset{x.node[p]}
  {
    PoolStep(t, n, x, 2 * p + 1);
    hide Pool;
    assert Built(x, 2 * p + 1) == [x.node[p]];
  }

  lemma {:induction false} TakenIsLeast(t: Trace, n: nat, x: Weights, k: nat)
    requires Weighs(t, n, x) && k + 1 < |t.taken|
    requires Sorted(x.w) && Sum(x.w) < x.modulus
    ensures IsLeast(x.item[k], Pool(t, n, x, k))
  {
    hide Pool, Sum;
    Ascending(t, n, x, k);
    ItemIsLeast(t, n, x, k);
    PoolLeast(t, n, x, k);
  }

  /** Each pair of steps joins two smallest weights of what is waiting. */
  lemma {:induction false} JoinsTwoSmallest(t: Trace, n: nat, x: Weights, p: nat)
    requires Weighs(t, n, x) && p < |x.node|
    requires Sorted(x.w) && Sum(x.w) < x.modulus
    ensures IsLeast(x.item[2 * p], Pool(t, n, x, 2 * p))
    ensures IsLeast(x.item[2 * p + 1], Pool(t, n, x, 2 * p) - multiset{x.item[2 * p]})
    ensures Pool(t, n, x, 2 * p + 2) ==
      Pool(t, n, x, 2 * p) - multiset{x.item[2 * p]} - multiset{x.item[2 * p + 1]} + multiset{x.node[p]}
  {
    hide Pool, IsLeast, Sorted, Sum;
    TakenIsLeast(t, n, x, 2 * p);
    EvenStep(t, n, x, p);
    TakenIsLeast(t, n, x, 2 * p + 1);
    OddStep(t, n, x, p);
  }

  lemma {:induction false} HuffmanPair(t: Trace, n: nat, x: Weights, p: nat)
    requires Weighs(t, n, x) && p < |x.node|
    requires Sorted(x.w) && Sum(x.w) < x.modulus
    ensures Huffman(Pool(t, n, x, 2 * p)) == x.node[p] + Huffman(Pool(t, n, x, 2 * p + 2))
  {
    hide Pool, Sorted;
    JoinsTwoSmallest(t, n, x, p);
    NodeExact(t, n, x, p);
    var a, b := x.item[2 * p], x.item[2 * p + 1];
    var m := Pool(t, n, x, 2 * p);
    var m1 := m - multiset{a};
    LeastIsMin(m, a);
    LeastIsMin(m1, b);
    HuffmanStep(m, m1, m1 - multiset{b}, Pool(t, n, x, 2 * p + 2), a, b, x.node[p]);
  }

  lemma {:induction false} NodeSumIsHuffman(t: Trace, n: nat, x: Weights, p: nat)
    requires Finished(t, n) && Weighs(t, n, x) && p <= n - 1
    requires Sorted(x.w) && Sum(x.w) < x.modulus
    ensures Sum(x.node[p..]) == Huffman(Pool(t, n, x, 2 * p))
    decreases n - p
  {
    hide Huffman, Pool, Sorted;
    if p < n - 1 {
      NodeSumIsHuffman(t, n, x, p + 1);
      HuffmanPair(t, n, x, p);
      SumHead(x.node[p..]);
      assert x.node[p..][1..] == x.node[p + 1..];
    } else {
      LastPool(t, n, x);
    }
  }

  lemma {:induction false} LastPool(t: Trace, n: nat, x: Weights)
    requires Finished(t, n) && Weighs(t, n, x)
    ensures Huffman(Pool(t, n, x, 2 * n - 2)) == 0
  {
    var m := Pool(t, n, x, 2 * n - 2);
    assert NodesAt(t, n, x, 2 * n - 2) == [x.node[n - 2]];
    assert LeavesAt(t, n, x, 2 * n - 2) == [];
    assert m == multiset{x.node[n - 2]};
    MinIsLeast(m);
    assert Min(m) == x.node[n - 2];
  }

  // ----- the cost of the leaf depths is the sum of the node weights

  lemma {:induction false} CostPlusSum(w: seq<nat>, depth: seq<nat>, up: seq<nat>)
    requires |w| == |depth| == |up|
    requires forall k :: 0 <= k < |w| ==> up[k] == w[k] * (depth[k] + 1)
    ensures Sum(up) == Cost(w, depth) + Sum(w)
  {
    if w != [] {
      var k := |w| - 1;
      CostPlusSum(w[..k], depth[..k], up[..k]);
      CostSnoc(w[..k], depth[..k], w[k], depth[k]);
      assert w == w[..k] + [w[k]] && depth == depth[..k] + [depth[k]];
      assert up[k] == w[k] * depth[k] + w[k];
    }
  }

  lemma {:induction false} ItemCosts(t: Trace, n: nat, x: Weights, depth: seq<nat>)
    requires NodeDepths(t, n, depth) && Weighs(t, n, x)
    requires Sum(x.w) < x.modulus
    ensures Sum(Products(x.item, ItemDepths(depth))) == Cost(x.node, depth) + Sum(x.node)
  {
    hide Sum, Cost;
    var c := Products(x.item, ItemDepths(depth));
    var up: seq<nat> := seq(n - 1, p requires 0 <= p < n - 1 => x.node[p] * (depth[p] + 1));
    forall p | 0 <= p < |up| ensures up[p] == c[2 * p] + c[2 * p + 1] {
      NodeExact(t, n, x, p);
      assert ItemDepths(depth)[2 * p] == depth[p] + 1;
      assert ItemDepths(depth)[2 * p + 1] == depth[p] + 1;
      Distribute(x.item[2 * p], x.item[2 * p + 1], depth[p] + 1);
    }
    SumPairs(c, up);
    CostPlusSum(x.node, depth, up);
  }

  lemma Distribute(a: nat, b: nat, d: nat)
    ensures (a + b) * d == a * d + b * d
  {
  }

  lemma {:induction false} LeafCosts(t: Trace, n: nat, x: Weights, depth: seq<nat>, lens: seq<nat>, c: seq<nat>)
    requires LeafDepths(t, n, depth, lens) && Weighs(t, n, x)
    requires c == Products(x.item, ItemDepths(depth))
    ensures Sum(LeafPart(t, n, c, n)) == Cost(x.w, lens)
  {
    var part, costs := LeafPart(t, n, c, n), Products(x.w, lens);
    forall l | 0 <= l < n ensures part[l] == costs[l] {
      var k := t.leafStep[l];
      assert LeafBelowParent(t, n, depth, lens, l);
      assert ItemDepths(depth)[k] == lens[l];
      assert IsItem(t, n, x, k) && IsLeafStep(t, l, k);
    }
    assert part == costs;
  }

  lemma {:induction false} NodeCosts(t: Trace, n: nat, x: Weights, depth: seq<nat>, c: seq<nat>)
    requires NodeDepths(t, n, depth) && Weighs(t, n, x)
    requires c == Products(x.item, ItemDepths(depth))
    ensures Sum(NodePart(t, n, c, n - 2)) == Cost(x.node[..n - 2], depth[..n - 2])
  {
    var part, costs := NodePart(t, n, c, n - 2), Products(x.node[..n - 2], depth[..n - 2]);
    forall i | 0 <= i < n - 2 ensures part[i] == costs[i] {
      var k := t.nodeStep[i];
      assert BelowParent(t, n, depth, i);
      assert ItemDepths(depth)[k] == depth[i];
      assert IsItem(t, n, x, k) && IsNodeStep(t, i, k);
    }
    assert part == costs;
  }

  lemma {:induction false} RootCost(node: seq<nat>, depth: seq<nat>, k: nat)
    requires |node| == |depth| == k + 1 && depth[k] == 0
    ensures Cost(node, depth) == Cost(node[..k], depth[..k])
  {
    CostSnoc(node[..k], depth[..k], node[k], 0);
    assert node == node[..k] + [node[k]] && depth == depth[..k] + [0];
  }

  lemma {:induction false} LeafCostIsNodeSum(t: Trace, n: nat, x: Weights, depth: seq<nat>, lens: seq<nat>)
    requires LeafDepths(t, n, depth, lens) && Weighs(t, n, x)
    requires Sum(x.w) < x.modulus
    ensures Cost(x.w, lens) == Sum(x.node)
  {
    hide Sum, Cost, Products;
    var c := Products(x.item, ItemDepths(depth));
    SplitAll(t, n, c);
    LeafCosts(t, n, x, depth, lens, c);
    NodeCosts(t, n, x, depth, c);
    ItemCosts(t, n, x, depth);
    RootCost(x.node, depth, n - 2);
  }

  lemma {:induction false} FirstPool(t: Trace, n: nat, x: Weights)
    requires Weighs(t, n, x)
    ensures Pool(t, n, x, 0) == multiset(x.w)
  {
    assert NodesAt(t, n, x, 0) == [] && LeavesAt(t, n, x, 0) == x.w;
  }

  /** The merge costs exactly Huffman's sum, below which no prefix code can go. */
  lemma {:induction false} MergeIsOptimal(t: Trace, n: nat, x: Weights, depth: seq<nat>, lens: seq<nat>)
    requires LeafDepths(t, n, depth, lens) && Weighs(t, n, x)
    requires Sorted(x.w) && Sum(x.w) < x.modulus
    ensures Cost(x.w, lens) == Huffman(multiset(x.w))
  {
    hide Sum, Cost, Huffman;
    LeafCostIsNodeSum(t, n, x, depth, lens);
    NodeSumIsHuffman(t, n, x, 0);
    assert x.node[0..] == x.node;
    FirstPool(t, n, x);
  }

  // ----- how deep a code can get

  function Fib(n: nat): (r: nat)
  {
    if n <= 1 then n else Fib(n - 1) + Fib(n - 2)
  }

  lemma {:induction false} FibMonotone(a: nat, b: nat)
    requires a <= b
    ensures Fib(a) <= Fib(b)
    decreases b
  {
    if a < b {
      FibMonotone(a, b - 1);
      assert b >= 2 ==> Fib(b) == Fib(b - 1) + Fib(b - 2);
    }
  }

  /** Node i weighs at least v times one Fibonacci number, and whatever is taken after its children at least v times
      the one before. */
  ghost predicate Heavy(x: Weights, i: nat, g: nat, v: nat) {
    && i < |x.node| && |x.node| == |x.item| / 2
    && x.node[i] >= v * Fib(g + 1)
    && (forall k :: 2 * i + 2 <= k < |x.item| ==> x.item[k] >= v * Fib(g))
  }

  lemma {:induction false} ItemsAscend(t: Trace, n: nat, x: Weights, j: nat, k: nat)
    requires Weighs(t, n, x) && j <= k < |x.item|
    requires Sorted(x.w) && Sum(x.w) < x.modulus
    ensures x.item[j] <= x.item[k]
  {
    hide Sum;
    if j < k {
      Ascending(t, n, x, k + 1);
      SortedAt(x.item, k + 1, j, k);
    }
  }

  /** Node i weighs almost twice one Fibonacci number, and whatever is taken after its children at least twice the one
      before. */
  ghost predicate Deep(x: Weights, i: nat, h: nat) {
    && i < |x.node| && |x.node| == |x.item| / 2
    && x.node[i] + 1 >= 2 * Fib(h + 1)
    && (forall k :: 2 * i + 2 <= k < |x.item| ==> x.item[k] >= 2 * Fib(h))
  }

  lemma {:induction false} ItemsPositive(t: Trace, n: nat, x: Weights, k: nat)
    requires Finished(t, n) && Weighs(t, n, x) && k < |x.item|
    requires Sorted(x.w) && x.w[0] > 0 && Sum(x.w) < x.modulus
    ensures x.item[k] >= 1
  {
    hide Sum;
    FirstTakenIsLeaf(t, n);
    assert IsItem(t, n, x, 0) && IsLeafStep(t, 0, 0);
    ItemsAscend(t, n, x, 0, k);
  }

  /** What is taken after node i: a leaf is heavier, since a tie would have gone to the leaf; and a node is made of items
      taken after the children of node i. */
  lemma {:induction false} TakenLater(t: Trace, n: nat, x: Weights, i: nat, k: nat)
    requires Finished(t, n) && Weighs(t, n, x) && i < n - 2 && t.nodeStep[i] < k < |x.item|
    requires Sorted(x.w) && Sum(x.w) < x.modulus
    ensures x.item[k] > x.node[i] || exists z :: i < z < |x.node| && x.item[k] == x.node[z]
  {
    hide Sum, IsSum;
    var s := t.nodeStep[i];
    assert IsNodeStep(t, i, s) && IsItem(t, n, x, s) && Choice(t, n, x, s) && IsItem(t, n, x, k);
    TakenMonotone(t, n, s + 1, k);
    if TakesNode(t, k) {
      StepOfItem(t, n, k);
      QueueBounds(t, n, k + 1);
      assert i < t.taken[k] < |x.node| && x.item[k] == x.node[t.taken[k]];
    } else {
      assert x.item[k] == x.w[k - t.taken[k]] >= x.w[s - i];
    }
  }

  /** One level up. */
  lemma {:induction false} DeepParent(t: Trace, n: nat, x: Weights, i: nat, h: nat)
    requires Finished(t, n) && Weighs(t, n, x) && i < n - 2 && h >= 1
    requires Sorted(x.w) && Sum(x.w) < x.modulus
    requires Deep(x, i, h)
    ensures Deep(x, t.nodeStep[i] / 2, h + 1)
  {
    hide Sum, Sorted, Fib;
    var s := t.nodeStep[i];
    var q := s / 2;
    ParentIsLater(t, n, i);
    assert IsNodeStep(t, i, s) && IsItem(t, n, x, s);
    NodeExact(t, n, x, q);
    FibSteps(h);
    forall k | 2 * q + 2 <= k < |x.item| ensures x.item[k] >= 2 * Fib(h + 1) {
      TakenLater(t, n, x, i, k);
      if x.item[k] <= x.node[i] {
        var z :| i < z < |x.node| && x.item[k] == x.node[z];
        NodeExact(t, n, x, z);
      }
    }
  }

  lemma FibSteps(h: nat)
    requires h >= 1
    ensures Fib(h + 2) == Fib(h + 1) + Fib(h) && Fib(h + 1) <= 2 * Fib(h)
  {
    assert Fib(h + 1) == Fib(h) + Fib(h - 1);
    FibMonotone(h - 1, h);
  }

  /** The parent of the first node. */
  lemma {:induction false} DeepBottom(t: Trace, n: nat, x: Weights)
    requires Finished(t, n) && n >= 3 && Weighs(t, n, x)
    requires Sorted(x.w) && x.w[0] > 0 && Sum(x.w) < x.modulus
    ensures t.nodeStep[0] / 2 < n - 1 && Deep(x, t.nodeStep[0] / 2, 2)
  {
    hide Sum, Sorted, Fib;
    var s := t.nodeStep[0];
    var q := s / 2;
    ParentIsLater(t, n, 0);
    assert IsNodeStep(t, 0, s) && IsItem(t, n, x, s);
    NodeExact(t, n, x, 0);
    NodeExact(t, n, x, q);
    forall k | 0 <= k < |x.item| ensures x.item[k] >= 1 { ItemsPositive(t, n, x, k); }
    assert Fib(2) == 1 && Fib(3) == 2 by { FirstFibs(); }
    forall k | 2 * q + 2 <= k < |x.item| ensures x.item[k] >= 2 {
      TakenLater(t, n, x, 0, k);
      if x.item[k] <= x.node[0] {
        var z :| 0 < z < |x.node| && x.item[k] == x.node[z];
        NodeExact(t, n, x, z);
      }
    }
  }

  lemma FirstFibs()
    ensures Fib(2) == 1 && Fib(3) == 2
  {
  }

  /** So is the node that a leaf is a child of, for the leaf's own weight. */
  lemma {:induction false} HeavyAboveLeaf(t: Trace, n: nat, x: Weights, depth: seq<nat>, lens: seq<nat>, l: nat)
    requires LeafDepths(t, n, depth, lens) && Weighs(t, n, x) && l < n
    requires Sorted(x.w) && Sum(x.w) < x.modulus
    ensures t.leafStep[l] / 2 < n - 1 && Heavy(x, t.leafStep[l] / 2, 1, x.w[l])
  {
    hide Sum, Sorted;
    var s := t.leafStep[l];
    var p := s / 2;
    assert LeafBelowParent(t, n, depth, lens, l);
    assert IsLeafStep(t, l, s) && IsItem(t, n, x, s);
    NodeExact(t, n, x, p);
    assert Fib(1) == 1 && Fib(2) == 1;
    forall k | 2 * p + 2 <= k < |x.item| ensures x.item[k] >= x.w[l] { ItemsAscend(t, n, x, s, k); }
  }

  lemma {:induction false} HeavyParent(t: Trace, n: nat, x: Weights, i: nat, g: nat, v: nat)
    requires Finished(t, n) && Weighs(t, n, x) && i < n - 2
    requires Sorted(x.w) && Sum(x.w) < x.modulus
    requires Heavy(x, i, g, v)
    ensures Heavy(x, t.nodeStep[i] / 2, g + 1, v)
  {
    hide Sum, Sorted;
    var s := t.nodeStep[i];
    var q := s / 2;
    ParentIsLater(t, n, i);
    assert IsNodeStep(t, i, s) && IsItem(t, n, x, s);
    assert x.item[s] == x.node[i];
    NodeExact(t, n, x, q);
    NextFib(v, g);
    forall k | 2 * q + 2 <= k < |x.item| ensures x.item[k] >= v * Fib(g + 1) {
      ItemsAscend(t, n, x, s, k);
    }
  }

  lemma NextFib(v: nat, g: nat)
    ensures v * Fib(g + 2) == v * Fib(g + 1) + v * Fib(g)
  {
    assert Fib(g + 2) == Fib(g + 1) + Fib(g);
  }

  lemma {:induction false} Climb(t: Trace, n: nat, x: Weights, depth: seq<nat>, top: nat, v: nat, i: nat)
    requires NodeDepths(t, n, depth) && Weighs(t, n, x)
    requires Sorted(x.w) && Sum(x.w) < x.modulus
    requires i < n - 1 && depth[i] <= top && Heavy(x, i, top - depth[i], v)
    ensures Sum(x.w) >= v * Fib(top + 1)
    decreases n - i
  {
    hide Sum, Sorted, Weighs;
    if i == n - 2 {
      NodeExact(t, n, x, i);
    } else {
      HeavyParent(t, n, x, i, top - depth[i], v);
      ParentIsLater(t, n, i);
      assert BelowParent(t, n, depth, i);
      Climb(t, n, x, depth, top, v, t.nodeStep[i] / 2);
    }
  }

  lemma {:induction false} ClimbDeep(t: Trace, n: nat, x: Weights, depth: seq<nat>, top: nat, i: nat)
    requires NodeDepths(t, n, depth) && Weighs(t, n, x)
    requires Sorted(x.w) && Sum(x.w) < x.modulus
    requires i < n - 1 && depth[i] < top && Deep(x, i, top - depth[i])
    ensures Sum(x.w) + 1 >= 2 * Fib(top + 1)
    decreases n - i
  {
    hide Sum, Sorted, Weighs, Fib;
    if i == n - 2 {
      NodeExact(t, n, x, i);
    } else {
      DeepParent(t, n, x, i, top - depth[i]);
      ParentIsLater(t, n, i);
      assert BelowParent(t, n, depth, i);
      ClimbDeep(t, n, x, depth, top, t.nodeStep[i] / 2);
    }
  }

  /** A code of length d needs a total weight of at least 2 Fib(d + 1) - 1: ties are resolved in favour of leaves. */
  lemma {:induction false} TotalForDepth(t: Trace, n: nat, x: Weights, depth: seq<nat>, lens: seq<nat>)
    requires LeafDepths(t, n, depth, lens) && Weighs(t, n, x)
    requires Sorted(x.w) && x.w[0] > 0 && Sum(x.w) < x.modulus
    ensures Sum(x.w) + 1 >= 2 * Fib(lens[0] + 1)
  {
    hide Sum, Sorted, Fib;
    FirstTakenIsLeaf(t, n);
    assert LeafBelowParent(t, n, depth, lens, 0);
    if n == 2 {
      FirstFibs();
      SumPart(x.w, 0);
    } else {
      DeepBottom(t, n, x);
      assert BelowParent(t, n, depth, 0);
      ClimbDeep(t, n, x, depth, lens[0], t.nodeStep[0] / 2);
    }
  }

  /** A symbol of weight v with a code of length d needs a total of at least v times Fib(d + 1). */
  lemma {:induction false} FibonacciLeaf(t: Trace, n: nat, x: Weights, depth: seq<nat>, lens: seq<nat>, l: nat)
    requires LeafDepths(t, n, depth, lens) && Weighs(t, n, x) && l < n
    requires Sorted(x.w) && Sum(x.w) < x.modulus
    ensures Sum(x.w) >= x.w[l] * Fib(lens[l] + 1)
  {
    hide Sum, Sorted;
    HeavyAboveLeaf(t, n, x, depth, lens, l);
    assert LeafBelowParent(t, n, depth, lens, l);
    Climb(t, n, x, depth, lens[l], x.w[l], t.leafStep[l] / 2);
  }

  lemma FibValues()
    ensures Fib(24) == 46368
    ensures Fib(34) == 5702887
  {
    assert Fib(5) == 5 && Fib(6) == 8;
    assert Fib(9) == 34 && Fib(10) == 55;
    assert Fib(13) == 233 && Fib(14) == 377;
    assert Fib(17) == 1597 && Fib(18) == 2584;
    assert Fib(21) == 10946 && Fib(22) == 17711;
    assert Fib(25) == 75025 && Fib(26) == 121393;
    assert Fib(29) == 514229 && Fib(30) == 832040;
    assert Fib(33) == 3524578 && Fib(34) == 5702887;
  }
}
