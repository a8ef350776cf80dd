/** Moffat and Katajainen's in-place computation of minimum-redundancy code lengths. */
module MinimumRedundancy {
  import opened Arithmetic
  import opened HuffmanCost
  import opened SymbolCounts
  import opened MergeTrace
  import opened MergeWeights
  import opened MergeOptimality
  import opened PrefixCodes

  // ----- one step of the merge, on the ghost trace

  ghost function TakenItem(t: Trace, n: nat, x: Weights, takeNode: bool): nat
    requires Weighs(t, n, x) && MayTake(t, n, x, takeNode)
  {
    var a := t.taken[|x.item|];
    if takeNode then x.node[a] else x.w[|x.item| - a]
  }

  /** The next step may take the head of the chosen queue. */
  ghost predicate MayTake(t: Trace, n: nat, x: Weights, takeNode: bool)
    requires Weighs(t, n, x)
  {
    var k := |x.item|;
    QueueBounds(t, n, k);
    var node, leaf := t.taken[k], k - t.taken[k];
    if takeNode then node < k / 2 && (leaf >= n || x.node[node] < x.w[leaf])
    else leaf < n && (node >= k / 2 || x.w[leaf] <= x.node[node])
  }

  ghost function NextTrace(t: Trace, takeNode: bool): Trace
    requires t.taken != []
  {
    var k := |t.taken| - 1;
    if takeNode then Trace(t.taken + [t.taken[k] + 1], t.nodeStep + [k], t.leafStep)
    else Trace(t.taken + [t.taken[k]], t.nodeStep, t.leafStep + [k])
  }

  ghost function NextWeights(x: Weights, v: nat): Weights
    requires x.modulus > 0
  {
    var k := |x.item|;
    x.(item := x.item + [v],
       node := if k % 2 == 1 then x.node + [Wrap(x.item[k - 1] + v, x.modulus)] else x.node)
  }

  lemma {:induction false} NextShape(t: Trace, n: nat, x: Weights, takeNode: bool)
    requires Weighs(t, n, x) && MayTake(t, n, x, takeNode)
    ensures Shape(NextTrace(t, takeNode), n)
  {
    var t' := NextTrace(t, takeNode);
    var k := |t.taken| - 1;
    QueueBounds(t, n, k);
    forall j | 0 <= j < |t'.taken| - 1 ensures StepShape(t', n, j) {
      if j < k { assert StepShape(t, n, j); }
    }
    forall i | 0 <= i < |t'.nodeStep| ensures t'.nodeStep[i] + 1 < |t'.taken| && IsNodeStep(t', i, t'.nodeStep[i]) {
      if i < |t.nodeStep| { assert IsNodeStep(t, i, t.nodeStep[i]); }
    }
    forall l | 0 <= l < |t'.leafStep| ensures t'.leafStep[l] + 1 < |t'.taken| && IsLeafStep(t', l, t'.leafStep[l]) {
      if l < |t.leafStep| { assert IsLeafStep(t, l, t.leafStep[l]); }
    }
  }

  lemma {:induction false} NextItems(t: Trace, n: nat, x: Weights, takeNode: bool, t': Trace, x': Weights)
    requires Weighs(t, n, x) && MayTake(t, n, x, takeNode)
    requires t' == NextTrace(t, takeNode) && x' == NextWeights(x, TakenItem(t, n, x, takeNode))
    ensures forall k :: 0 <= k < |x'.item| ==> k + 1 < |t'.taken| && IsItem(t', n, x', k) && Choice(t', n, x', k)
  {
    hide Wrap;
    NextShape(t, n, x, takeNode);
    QueueBounds(t, n, |x.item|);
    forall k | 0 <= k < |x'.item| ensures IsItem(t', n, x', k) && Choice(t', n, x', k) {
      if k < |x.item| { assert IsItem(t, n, x, k) && Choice(t, n, x, k); }
      assert StepShape(t', n, k);
    }
  }

  lemma {:induction false} NextNodes(x: Weights, v: nat, x': Weights)
    requires x.modulus > 0 && x' == NextWeights(x, v) && NodesAreSums(x)
    ensures NodesAreSums(x')
  {
    hide Wrap;
    forall p | 0 <= p < |x'.node| ensures IsSum(x', p) {
      if p < |x.node| { assert IsSum(x, p); }
    }
  }

  lemma {:induction false} NextWeighs(t: Trace, n: nat, x: Weights, takeNode: bool)
    requires Weighs(t, n, x) && MayTake(t, n, x, takeNode)
    ensures Weighs(NextTrace(t, takeNode), n, NextWeights(x, TakenItem(t, n, x, takeNode)))
  {
    hide Wrap;
    var t', x' := NextTrace(t, takeNode), NextWeights(x, TakenItem(t, n, x, takeNode));
    NextShape(t, n, x, takeNode);
    NextItems(t, n, x, takeNode, t', x');
    NextNodes(x, TakenItem(t, n, x, takeNode), x');
    hide IsItem, Choice, StepShape, Shape, NodesAreSums;
  }

  lemma NextTraceFacts(t: Trace, k: nat, takeNode: bool)
    requires |t.taken| == k + 1 && |t.nodeStep| == t.taken[k]
    ensures var t' := NextTrace(t, takeNode);
      && |t'.taken| == k + 2 && t'.taken[k + 1] == t.taken[k] + (if takeNode then 1 else 0) == |t'.nodeStep|
      && (forall i :: 0 <= i < |t.nodeStep| ==> t'.nodeStep[i] == t.nodeStep[i])
      && (takeNode ==> t'.nodeStep[t.taken[k]] == k)
  {
  }

  /** What a step changes in the trace and the weights. */
  lemma {:induction false} NextFacts(t: Trace, n: nat, x: Weights, takeNode: bool)
      returns (t': Trace, x': Weights, v: nat)
    requires Weighs(t, n, x) && MayTake(t, n, x, takeNode)
    ensures Weighs(t', n, x') && x'.w == x.w && x'.modulus == x.modulus && |t'.taken| == |x'.item| + 1
    ensures x'.item == x.item + [v]
    ensures v == TakenItem(t, n, x, takeNode)
    ensures t'.taken[|x.item| + 1] == t.taken[|x.item|] + if takeNode then 1 else 0
    ensures |t'.nodeStep| == t'.taken[|x.item| + 1]
    ensures forall i :: 0 <= i < |t.nodeStep| ==> t'.nodeStep[i] == t.nodeStep[i]
    ensures takeNode ==> t'.nodeStep[t.taken[|x.item|]] == |x.item|
    ensures |x.item| % 2 == 0 ==> x'.node == x.node
    ensures |x.item| % 2 == 1 ==> x'.node == x.node + [Wrap(x.item[|x.item| - 1] + v, x.modulus)]
  {
    NextWeighs(t, n, x, takeNode);
    NextTraceFacts(t, |x.item|, takeNode);
    hide IsItem, Choice, StepShape, NextTrace, Wrap;
    v := TakenItem(t, n, x, takeNode);
    t', x' := NextTrace(t, takeNode), NextWeights(x, v);
  }

  // ----- first phase: merging, left to right

  /** Where the two queues live in the array: links of the nodes taken, weights of the waiting
      nodes, and, from `leaf` on, weights of the waiting leaves. */
  ghost predicate Layout(a: array<SymFreq>, n: nat, t: Trace, x: Weights, root: nat, leaf: nat)
    reads a
  {
    && n <= a.Length && Weighs(t, n, x)
    && |x.w| == n && |x.node| == |x.item| / 2 && |t.taken| == |x.item| + 1 && |t.nodeStep| == root
    && root == t.taken[|x.item|] && root + leaf == |x.item| && leaf <= n
    && root <= |x.node| <= leaf
    && (forall i :: 0 <= i < root ==> a[i].key == t.nodeStep[i] / 2)
    && (forall i :: root <= i < |x.node| ==> a[i].key == x.node[i])
    && (forall i :: leaf <= i < n ==> a[i].key == x.w[i])
  }

  ghost function FirstTrace(): Trace {
    Trace([0, 0, 0], [], [0, 1])
  }

  ghost function FirstWeights(w: seq<nat>, modulus: nat): Weights
    requires |w| >= 2 && modulus > 0
  {
    Weights(w, [Wrap(w[0] + w[1], modulus)], [w[0], w[1]], modulus)
  }

  lemma FirstWeighs(w: seq<nat>, modulus: nat)
    requires |w| >= 2 && modulus > 0
    ensures Weighs(FirstTrace(), |w|, FirstWeights(w, modulus))
  {
  }

  /** The comparison made on the array is the choice the trace asks for. */
  lemma HeadsCompared(a: array<SymFreq>, n: nat, t: Trace, x: Weights, root: nat, leaf: nat, takeNode: bool)
    requires Layout(a, n, t, x, root, leaf) && |x.item| < 2 * n - 2
    requires takeNode == (leaf >= n || (root < |x.node| && a[root].key < a[leaf].key))
    ensures MayTake(t, n, x, takeNode)
    ensures takeNode ==> root < |x.node| && TakenItem(t, n, x, takeNode) == a[root].key
    ensures !takeNode ==> leaf < n && TakenItem(t, n, x, takeNode) == a[leaf].key
  {
    hide Shape, IsItem, Choice, StepShape, Wrap;
  }

  /** The first child of node `next`: its weight goes to a[next]. */
  method TakeFirstChild(a: array<SymFreq>, n: nat, next: nat, root: nat, leaf: nat, ghost t: Trace, ghost x: Weights)
      returns (root': nat, leaf': nat, ghost t': Trace, ghost x': Weights)
    requires Layout(a, n, t, x, root, leaf)
    requires |x.item| == 2 * next && root < next < n - 1 && n <= x.modulus
    modifies a
    ensures Layout(a, n, t', x', root', leaf') && next < leaf'
    ensures |x'.item| == 2 * next + 1 && x'.w == x.w && x'.modulus == x.modulus
    ensures a[next].key == x'.item[2 * next]
    ensures OnlyKeysChanged(a, n)
  {
    hide Weighs, MayTake, TakenItem, Wrap;
    ghost var takeNode := leaf >= n || a[root].key < a[leaf].key;
    HeadsCompared(a, n, t, x, root, leaf, takeNode);
    ghost var v;
    t', x', v := NextFacts(t, n, x, takeNode);
    root', leaf' := root, leaf;
    if leaf >= n || a[root].key < a[leaf].key {
      a[next] := a[next].(key := a[root].key);
      a[root] := a[root].(key := next);
      root' := root + 1;
    } else {
      a[next] := a[next].(key := a[leaf].key);
      leaf' := leaf + 1;
    }
  }

  /** The second child of node `next`: its weight is added to a[next]. */
  method TakeSecondChild(a: array<SymFreq>, n: nat, modulus: nat, next: nat, root: nat, leaf: nat,
                         ghost t: Trace, ghost x: Weights)
      returns (root': nat, leaf': nat, ghost t': Trace, ghost x': Weights)
    requires Layout(a, n, t, x, root, leaf)
    requires |x.item| == 2 * next + 1 && next < n - 1 && next < leaf && n <= x.modulus == modulus
    requires a[next].key == x.item[2 * next]
    modifies a
    ensures Layout(a, n, t', x', root', leaf') && root' <= next
    ensures |x'.item| == 2 * next + 2 && x'.w == x.w && x'.modulus == x.modulus
    ensures OnlyKeysChanged(a, n)
  {
    hide Weighs, MayTake, TakenItem, Wrap, Shape;
    ghost var takeNode := leaf >= n || (root < next && a[root].key < a[leaf].key);
    HeadsCompared(a, n, t, x, root, leaf, takeNode);
    ghost var v;
    t', x', v := NextFacts(t, n, x, takeNode);
    root', leaf' := root, leaf;
    if leaf >= n || (root < next && a[root].key < a[leaf].key) {
      a[next] := a[next].(key := Wrap(a[next].key + a[root].key, modulus));
      a[root] := a[root].(key := next);
      root' := root + 1;
    } else {
      a[next] := a[next].(key := Wrap(a[next].key + a[leaf].key, modulus));
      leaf' := leaf + 1;
    }
  }

  /** The two lightest leaves become the first node. */
  method FirstNode(a: array<SymFreq>, n: nat, modulus: nat) returns (ghost t: Trace, ghost x: Weights)
    requires 2 <= n <= a.Length && n <= modulus
    modifies a
    ensures Layout(a, n, t, x, 0, 2)
    ensures x.w == Keys(old(a[..n])) && x.modulus == modulus && |x.item| == 2
    ensures OnlyKeysChanged(a, n)
  {
    ghost var w := Keys(a[..n]);
    t, x := FirstTrace(), FirstWeights(w, modulus);
    FirstWeighs(w, modulus);
    a[0] := a[0].(key := Wrap(a[0].key + a[1].key, modulus));
    hide Weighs;
  }

  lemma {:induction false} AllMerged(t: Trace, n: nat, x: Weights, root: nat)
    requires n >= 2 && Weighs(t, n, x) && |x.item| == 2 * n - 2
    requires root == t.taken[2 * n - 2] && root < n - 1 && 2 * n - 2 - root <= n
    ensures Finished(t, n)
  {
  }

  method MergeQueues(a: array<SymFreq>, n: nat, modulus: nat) returns (ghost t: Trace, ghost x: Weights)
    requires 2 <= n <= a.Length && n <= modulus
    modifies a
    ensures Finished(t, n) && Weighs(t, n, x)
    ensures x.w == Keys(old(a[..n])) && x.modulus == modulus
    ensures forall i :: 0 <= i < n - 2 ==> a[i].key == t.nodeStep[i] / 2
    ensures OnlyKeysChanged(a, n)
  {
    ghost var w := Keys(a[..n]);
    t, x := FirstNode(a, n, modulus);
    var root: nat, leaf: nat, next: nat := 0, 2, 1;
    while next < n - 1
      invariant 1 <= next <= n - 1 && root < next && |x.item| == 2 * next
      invariant x.w == w && x.modulus == modulus
      invariant Layout(a, n, t, x, root, leaf)
      invariant OnlyKeysChanged(a, n)
    {
      root, leaf, t, x := TakeFirstChild(a, n, next, root, leaf, t, x);
      root, leaf, t, x := TakeSecondChild(a, n, modulus, next, root, leaf, t, x);
      next := next + 1;
    }
    AllMerged(t, n, x, root);
  }

  // ----- second phase: links become depths, right to left

  method LinksToDepths(a: array<SymFreq>, n: nat, modulus: nat, ghost t: Trace) returns (ghost depth: seq<nat>)
    requires 2 <= n <= a.Length && n <= modulus && Finished(t, n)
    requires forall i :: 0 <= i < n - 2 ==> a[i].key == t.nodeStep[i] / 2
    modifies a
    ensures NodeDepths(t, n, depth)
    ensures forall i :: 0 <= i < n - 1 ==> a[i].key == depth[i]
    ensures OnlyKeysChanged(a, n)
  {
    hide Wrap, BelowParent, Finished;
    NodeCount(t, n);
    a[n - 2] := a[n - 2].(key := 0);
    depth := seq(n - 1, _ => 0);
    var next := n - 3;
    while next >= 0
      invariant -1 <= next <= n - 3 && |depth| == n - 1 && depth[n - 2] == 0
      invariant forall i :: 0 <= i <= next ==> a[i].key == t.nodeStep[i] / 2
      invariant forall i :: next < i < n - 1 ==> a[i].key == depth[i] <= n - 2 - i
      invariant forall i :: next < i < n - 2 ==> BelowParent(t, n, depth, i)
      invariant OnlyKeysChanged(a, n)
    {
      ParentIsLater(t, n, next);
      a[next] := a[next].(key := Wrap(a[a[next].key].key + 1, modulus));
      SmallWrap(depth[t.nodeStep[next] / 2] + 1, modulus);
      ghost var before := depth;
      depth := depth[next := a[next].key];
      forall i | next <= i < n - 2 ensures BelowParent(t, n, depth, i) { DepthSet(t, n, before, next, depth, i); }
      next := next - 1;
    }
  }

  lemma NodeCount(t: Trace, n: nat)
    requires Finished(t, n) && n >= 2
    ensures |t.nodeStep| >= n - 2
  {
  }

  /** Setting the depth of one node leaves the nodes to its right as they are: parents stand to the right. */
  lemma DepthSet(t: Trace, n: nat, before: seq<nat>, next: nat, depth: seq<nat>, i: nat)
    requires Finished(t, n) && next <= i < n - 2 && |before| == |depth| == n - 1 && n - 2 <= |t.nodeStep|
    requires t.nodeStep[next] / 2 < n - 1 && depth == before[next := before[t.nodeStep[next] / 2] + 1]
    requires i > next ==> BelowParent(t, n, before, i)
    ensures BelowParent(t, n, depth, i)
  {
    ParentIsLater(t, n, i);
  }

  // ----- third phase: node depths become leaf depths, right to left

  /** The nodes of depth `dpth` are those whose links point into the level above. */
  lemma {:induction false} LevelEnd(t: Trace, n: nat, depth: seq<nat>, dpth: nat, root: nat, hi: nat, i: nat)
    requires NodeDepths(t, n, depth) && dpth > 0 && i <= root <= hi <= n - 2 && root < n - 2
    requires t.taken[2 * (hi + 1)] == root + 1
    requires forall j :: root < j <= hi ==> depth[j] == dpth - 1
    requires forall j :: 0 <= j <= root ==> depth[j] >= dpth
    ensures depth[i] == dpth <==> t.taken[2 * (root + 1)] <= i
    ensures t.taken[2 * (root + 1)] <= root + 1
  {
    assert BelowParent(t, n, depth, i);
    NodeStepBefore(t, n, i, 2 * (root + 1));
    NodeStepBefore(t, n, i, 2 * (hi + 1));
    TakenMonotone(t, n, 2 * (root + 1), 2 * (hi + 1));
  }

  /** Leaves whose parents lie in (root, hi]. */
  lemma {:induction false} LeavesOfLevel(t: Trace, n: nat, root: int, hi: int, l: nat)
    requires Finished(t, n) && -1 <= root <= hi <= n - 2 && l < n
    ensures root < t.leafStep[l] / 2 <= hi <==>
      2 * (root + 1) - t.taken[2 * (root + 1)] <= l < 2 * (hi + 1) - t.taken[2 * (hi + 1)]
  {
    LeafStepBefore(t, n, l, 2 * (root + 1));
    LeafStepBefore(t, n, l, 2 * (hi + 1));
  }

  /** State at the start of level `dpth`: nodes above `root` have been counted, those in
      (root, hi] on the level before; leaves above `next` have got their lengths. */
  ghost predicate LevelStart(t: Trace, n: nat, depth: seq<nat>, dpth: nat, root: int, hi: int, next: int, avbl: int) {
    && NodeDepths(t, n, depth)
    && (dpth == 0 ==> root == n - 2 && next == n - 1 && avbl == 1)
    && (dpth > 0 ==> -1 <= root <= hi <= n - 2 && root < n - 2 && LevelAbove(t, depth, dpth, root, hi))
    && (dpth > 0 ==> next == 2 * hi - root && avbl == 2 * (hi - root))
    && (forall j :: 0 <= j <= root ==> depth[j] >= dpth)
  }

  ghost predicate LevelAbove(t: Trace, depth: seq<nat>, dpth: nat, root: int, hi: int)
    requires -1 <= root <= hi < |depth|
  {
    && 2 * (hi + 1) < |t.taken| && t.taken[2 * (hi + 1)] == root + 1
    && (forall j :: root < j <= hi ==> depth[j] == dpth - 1)
  }

  /** The nodes of a level form the top part of those left: down to `end`. */
  ghost predicate LevelNodes(depth: seq<nat>, dpth: nat, root: int, end: int) {
    && -1 <= end <= root < |depth|
    && (forall j :: 0 <= j <= root ==> (depth[j] == dpth <==> end < j))
  }

  lemma {:induction false} LevelHasEnd(t: Trace, n: nat, depth: seq<nat>, dpth: nat, root: int, hi: int, next: int, avbl: int)
      returns (end: int)
    requires LevelStart(t, n, depth, dpth, root, hi, next, avbl)
    ensures LevelNodes(depth, dpth, root, end)
    ensures LevelStart(t, n, depth, dpth + 1, end, root, next - (avbl - (root - end)), 2 * (root - end))
    ensures root - end <= avbl
    ensures end <= next - (avbl - (root - end)) <= next
  {
    if dpth == 0 {
      end := n - 3;
      forall j | 0 <= j <= root ensures depth[j] == 0 <==> end < j {
        if j < n - 2 { assert BelowParent(t, n, depth, j); }
      }
    } else {
      var first: int := t.taken[2 * (root + 1)];
      end := first - 1;
      TakenMonotone(t, n, 2 * (root + 1), 2 * (hi + 1));
      forall j | 0 <= j <= root ensures depth[j] == dpth <==> end < j {
        LevelEnd(t, n, depth, dpth, root, hi, j);
      }
    }
  }

  ghost predicate LeafAssigned(t: Trace, n: nat, depth: seq<nat>, l: nat, key: nat)
    requires l < |t.leafStep|
  {
    t.leafStep[l] / 2 < |depth| && key == depth[t.leafStep[l] / 2] + 1
  }

  /** Leaves in (next', next] hang below the nodes of the level before. */
  lemma {:induction false} LevelLeaf(t: Trace, n: nat, depth: seq<nat>, dpth: nat, root: int, hi: int, next: int, avbl: int,
                                     end: int, l: nat)
    requires LevelStart(t, n, depth, dpth, root, hi, next, avbl)
    requires LevelStart(t, n, depth, dpth + 1, end, root, next - (avbl - (root - end)), 2 * (root - end))
    requires next - (avbl - (root - end)) < l <= next < n
    ensures LeafAssigned(t, n, depth, l, dpth)
  {
    if dpth > 0 {
      LeavesOfLevel(t, n, root, hi, l);
    }
  }

  lemma AllAssigned(t: Trace, n: nat, depth: seq<nat>, lens: seq<nat>)
    requires NodeDepths(t, n, depth) && |lens| == n
    requires forall l :: 0 <= l < n ==> LeafAssigned(t, n, depth, l, lens[l])
    ensures LeafDepths(t, n, depth, lens)
  {
    forall l | 0 <= l < n ensures LeafBelowParent(t, n, depth, lens, l) {
      assert LeafAssigned(t, n, depth, l, lens[l]);
    }
  }

  lemma TopLevel(t: Trace, n: nat, depth: seq<nat>)
    requires NodeDepths(t, n, depth)
    ensures LevelStart(t, n, depth, 0, n - 2, n - 2, n - 1, 1)
    ensures |t.leafStep| == n && |depth| == n - 1
  {
  }

  /** Counts the nodes of one level, moving `root` below them. */
  method CountLevel(a: array<SymFreq>, ghost depth: seq<nat>, dpth: nat, root: int, ghost end: int)
      returns (used: nat, root': int)
    requires LevelNodes(depth, dpth, root, end) && root < a.Length
    requires forall i :: 0 <= i <= root ==> a[i].key == depth[i]
    ensures root' == end && used == root - end
  {
    used, root' := 0, root;
    while root' >= 0 && a[root'].key == dpth
      invariant end <= root' <= root && used == root - root'
    {
      used := used + 1;
      root' := root' - 1;
    }
  }

  /** Gives length `dpth` to the leaves of one level, moving `next` below them. */
  method AssignLevel(a: array<SymFreq>, n: nat, dpth: nat, next: int, avbl: nat, used: nat) returns (next': int)
    requires used <= avbl && -1 <= next - (avbl - used) <= next < n <= a.Length
    modifies a
    ensures next' == next - (avbl - used)
    ensures forall i :: 0 <= i <= next' || next < i < a.Length ==> a[i] == old(a[i])
    ensures forall i :: next' < i <= next ==> a[i].key == dpth
    ensures OnlyKeysChanged(a, n)
  {
    var left := avbl;
    next' := next;
    while left > used
      invariant used <= left <= avbl && next' == next - (avbl - left)
      invariant forall i :: 0 <= i <= next' || next < i < a.Length ==> a[i] == old(a[i])
      invariant forall i :: next' < i <= next ==> a[i].key == dpth
      invariant OnlyKeysChanged(a, n)
    {
      a[next'] := a[next'].(key := dpth);
      next' := next' - 1;
      left := left - 1;
    }
  }

  method DepthsToLengths(a: array<SymFreq>, n: nat, ghost t: Trace, ghost depth: seq<nat>)
    requires 2 <= n <= a.Length && NodeDepths(t, n, depth)
    requires forall i :: 0 <= i < n - 1 ==> a[i].key == depth[i]
    modifies a
    ensures LeafDepths(t, n, depth, Keys(a[..n]))
    ensures OnlyKeysChanged(a, n)
  {
    hide LevelStart, NodeDepths, LeafAssigned, LevelNodes, LeafDepths;
    var avbl, used, dpth, root, next := 1, 0, 0, n - 2, n - 1;
    ghost var hi := n - 2;
    TopLevel(t, n, depth);
    while avbl > 0
      invariant 0 <= avbl && -1 <= root <= next < n
      invariant LevelStart(t, n, depth, dpth, root, hi, next, avbl)
      invariant forall i :: 0 <= i <= root ==> a[i].key == depth[i]
      invariant forall l :: next < l < n ==> LeafAssigned(t, n, depth, l, a[l].key)
      invariant OnlyKeysChanged(a, n)
      decreases root + 1, avbl
    {
      ghost var end := LevelHasEnd(t, n, depth, dpth, root, hi, next, avbl);
      ghost var root0, next0, hi0 := root, next, hi;
      used, root := CountLevel(a, depth, dpth, root, end);
      next := AssignLevel(a, n, dpth, next, avbl, used);
      forall l | next < l < n ensures LeafAssigned(t, n, depth, l, a[l].key) {
        if l <= next0 { LevelLeaf(t, n, depth, dpth, root0, hi0, next0, avbl, end, l); }
      }
      hi := root0;
      avbl := 2 * used;
      dpth := dpth + 1;
    }
    NothingLeft(t, n, depth, dpth, root, hi, next);
    AllAssigned(t, n, depth, Keys(a[..n]));
  }

  lemma {:induction false} NothingLeft(t: Trace, n: nat, depth: seq<nat>, dpth: nat, root: int, hi: int, next: int)
    requires LevelStart(t, n, depth, dpth, root, hi, next, 0)
    ensures next == -1
  {
    if root >= 0 {
      NodeStepBefore(t, n, root, 2 * (root + 1));
      ParentIsLater(t, n, root);
    }
  }

  // ----- the whole computation

  /** `lens` are the leaf depths of the tree that the two-queue merge builds over `w`. */
  ghost predicate MergedLengths(w: seq<nat>, modulus: nat, lens: seq<nat>) {
    && |lens| == |w|
    && (|w| == 1 ==> lens == [1])
    && (|w| >= 2 ==> exists t, x, depth :: IsMerge(w, modulus, lens, t, x, depth))
  }

  ghost predicate IsMerge(w: seq<nat>, modulus: nat, lens: seq<nat>, t: Trace, x: Weights, depth: seq<nat>) {
    x.w == w && x.modulus == modulus && Weighs(t, |w|, x) && LeafDepths(t, |w|, depth, lens)
  }

  ghost predicate Descending(s: seq<nat>) {
    forall i, j :: 0 <= i < j < |s| ==> s[i] >= s[j]
  }

  method CalculateMinimumRedundancy(a: array<SymFreq>, n: nat, modulus: nat)
    requires n <= a.Length && n <= modulus
    modifies a
    ensures MergedLengths(Keys(old(a[..n])), modulus, Keys(a[..n]))
    ensures OnlyKeysChanged(a, n)
  {
    if n == 0 {
      return;
    } else if n == 1 {
      a[0] := a[0].(key := 1);
      return;
    }
    ghost var w := Keys(a[..n]);
    ghost var t, x := MergeQueues(a, n, modulus);
    label merged:
    ghost var depth := LinksToDepths(a, n, modulus, t);
    DepthsToLengths(a, n, t, depth);
    assert IsMerge(w, modulus, Keys(a[..n]), t, x, depth);
  }

  /** Whatever the weights and whatever the comparisons said: the lengths descend and use up
      the code space exactly. */
  lemma {:induction false} MergedIsComplete(w: seq<nat>, modulus: nat, lens: seq<nat>, m: nat)
    requires |w| >= 2 && MergedLengths(w, modulus, lens) && lens[0] <= m
    ensures Descending(lens) && AllAtMost(lens, m) && Kraft(lens, m) == Pow2(m)
    ensures forall l :: 0 <= l < |lens| ==> 1 <= lens[l] < |w|
  {
    var t, x, depth :| IsMerge(w, modulus, lens, t, x, depth);
    LeafDepthsAreComplete(t, |w|, depth, lens, m);
    forall i, j | 0 <= i < j < |lens| ensures lens[i] >= lens[j] {
      LeafDepthsDescend(t, |w|, depth, lens, i, j);
    }
    forall l | 0 <= l < |lens| ensures 1 <= lens[l] < |w| {
      assert LeafBelowParent(t, |w|, depth, lens, l);
      NodeDepthAtMost(t, |w|, depth, t.leafStep[l] / 2);
    }
  }

  /** On sorted weights that do not overflow the key, no prefix code is shorter. */
  lemma {:induction false} MergedIsMinimal(w: seq<nat>, modulus: nat, lens: seq<nat>, words: seq<Word>)
    requires |w| >= 2 && MergedLengths(w, modulus, lens)
    requires Sorted(w) && Sum(w) < modulus
    requires |words| == |w| && PrefixFree(words)
    ensures Cost(w, lens) <= Cost(w, Lengths(words))
  {
    var t, x, depth :| IsMerge(w, modulus, lens, t, x, depth);
    MergeIsOptimal(t, |w|, x, depth, lens);
    NoPrefixCodeIsCheaper(w, words);
  }

  /** A longest code of d bits needs a total weight of at least 2 Fib(d + 1) - 1. */
  lemma {:induction false} MergedDepth(w: seq<nat>, modulus: nat, lens: seq<nat>)
    requires |w| >= 2 && MergedLengths(w, modulus, lens)
    requires Sorted(w) && w[0] > 0 && Sum(w) < modulus
    ensures Sum(w) + 1 >= 2 * Fib(lens[0] + 1)
  {
    var t, x, depth :| IsMerge(w, modulus, lens, t, x, depth);
    TotalForDepth(t, |w|, x, depth, lens);
  }

  /** A symbol of weight v with a code of d bits needs a total of at least v times Fib(d + 1). */
  lemma {:induction false} MergedLeaf(w: seq<nat>, modulus: nat, lens: seq<nat>, l: nat)
    requires |w| >= 2 && MergedLengths(w, modulus, lens) && l < |w|
    requires Sorted(w) && Sum(w) < modulus
    ensures Sum(w) >= w[l] * Fib(lens[l] + 1)
  {
    var t, x, depth :| IsMerge(w, modulus, lens, t, x, depth);
    FibonacciLeaf(t, |w|, x, depth, lens, l);
  }

  /** The least total that needs a code of more than 32 bits. */
  const DEEP_TOTAL: nat := 11405773

  /** Weights that fit 16 bits never need more than 22 bits; totals below DEEP_TOTAL never more than 32. */
  lemma {:induction false} MergedDepthLimits(w: seq<nat>, modulus: nat, lens: seq<nat>)
    requires |w| >= 2 && MergedLengths(w, modulus, lens)
    requires Sorted(w) && w[0] > 0 && Sum(w) < modulus
    ensures Sum(w) < 65536 ==> lens[0] <= 22
    ensures Sum(w) < DEEP_TOTAL ==> lens[0] <= 32
  {
    MergedDepth(w, modulus, lens);
    FibValues();
    if lens[0] >= 23 { FibMonotone(24, lens[0] + 1); }
    if lens[0] >= 33 { FibMonotone(34, lens[0] + 1); }
  }
}
