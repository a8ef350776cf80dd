/** The weights alone determine the run of the merge, and so the lengths measured. */
module MergeDetermined {
  import opened Arithmetic
  import opened SymbolCounts
  import opened RadixSort
  import opened MergeTrace
  import opened MergeWeights
  import opened MinimumRedundancy
  import opened CodeLengths

  /** Two runs have done the same in their first k steps. */
  ghost predicate SameSoFar(t: Trace, x: Weights, t': Trace, x': Weights, k: nat) {
    && k < |t.taken| == |t'.taken| && (forall j :: 0 <= j <= k ==> t.taken[j] == t'.taken[j])
    && k <= |x.item| == |x'.item| && x.item[..k] == x'.item[..k]
    && k / 2 <= |x.node| == |x'.node| && x.node[..k / 2] == x'.node[..k / 2]
  }

  /** The same queues lead to the same comparison. */
  lemma {:induction false} SameChoice(t: Trace, x: Weights, t': Trace, x': Weights, n: nat, k: nat)
    requires Weighs(t, n, x) && Weighs(t', n, x') && x.w == x'.w && x.modulus == x'.modulus
    requires SameSoFar(t, x, t', x', k) && k + 1 < |t.taken|
    ensures t.taken[k + 1] == t'.taken[k + 1] && x.item[k] == x'.item[k]
  {
    assert Choice(t, n, x, k) && IsItem(t, n, x, k) && Choice(t', n, x', k) && IsItem(t', n, x', k);
    hide Weighs;
    var a := t.taken[k];
    assert a < k / 2 ==> x.node[..k / 2][a] == x'.node[..k / 2][a];
  }

  lemma {:induction false} SameRun(t: Trace, x: Weights, t': Trace, x': Weights, n: nat, k: nat)
    requires Weighs(t, n, x) && Weighs(t', n, x') && x.w == x'.w && x.modulus == x'.modulus
    requires k < |t.taken| == |t'.taken|
    ensures SameSoFar(t, x, t', x', k)
  {
    hide IsItem, Choice, Shape, Wrap;
    if k > 0 {
      SameRun(t, x, t', x', n, k - 1);
      SameChoice(t, x, t', x', n, k - 1);
      assert x.item[..k] == x.item[..k - 1] + [x.item[k - 1]];
      assert x'.item[..k] == x'.item[..k - 1] + [x'.item[k - 1]];
      if k % 2 == 0 {
        var p := k / 2 - 1;
        assert IsSum(x, p) && IsSum(x', p);
        assert x.item[..k][2 * p] == x'.item[..k][2 * p];
        assert x.node[..k / 2] == x.node[..p] + [x.node[p]];
        assert x'.node[..k / 2] == x'.node[..p] + [x'.node[p]];
      }
    } else {
      NothingTaken(t, n);
      NothingTaken(t', n);
    }
  }

  lemma NothingTaken(t: Trace, n: nat)
    requires Shape(t, n)
    ensures |t.taken| > 0 && t.taken[0] == 0
  {
  }

  /** Every item is taken at the same step. */
  lemma {:induction false} SameSteps(t: Trace, t': Trace, n: nat)
    requires Finished(t, n) && Finished(t', n) && t.taken == t'.taken
    ensures t.nodeStep == t'.nodeStep && t.leafStep == t'.leafStep
  {
    forall i | 0 <= i < |t.nodeStep| ensures t.nodeStep[i] == t'.nodeStep[i] {
      assert IsNodeStep(t, i, t.nodeStep[i]);
      StepOfItem(t', n, t.nodeStep[i]);
    }
    forall l | 0 <= l < |t.leafStep| ensures t.leafStep[l] == t'.leafStep[l] {
      assert IsLeafStep(t, l, t.leafStep[l]);
      StepOfItem(t', n, t.leafStep[l]);
    }
  }

  lemma {:induction false} SameDepth(t: Trace, n: nat, depth: seq<nat>, depth': seq<nat>, i: nat)
    requires NodeDepths(t, n, depth) && NodeDepths(t, n, depth') && i < n - 1
    ensures depth[i] == depth'[i]
    decreases n - i
  {
    if i < n - 2 {
      ParentIsLater(t, n, i);
      assert BelowParent(t, n, depth, i) && BelowParent(t, n, depth', i);
      SameDepth(t, n, depth, depth', t.nodeStep[i] / 2);
    }
  }

  lemma {:induction false} SameLeaf(t: Trace, n: nat, depth: seq<nat>, lens: seq<nat>, depth': seq<nat>, lens': seq<nat>, l: nat)
    requires LeafDepths(t, n, depth, lens) && LeafDepths(t, n, depth', lens') && l < n
    ensures lens[l] == lens'[l]
  {
    assert LeafBelowParent(t, n, depth, lens, l) && LeafBelowParent(t, n, depth', lens', l);
    SameDepth(t, n, depth, depth', t.leafStep[l] / 2);
  }

  /** There is but one list of lengths for any weights. */
  lemma {:induction false} MergedOnce(w: seq<nat>, modulus: nat, lens: seq<nat>, lens': seq<nat>)
    requires MergedLengths(w, modulus, lens) && MergedLengths(w, modulus, lens')
    ensures lens == lens'
  {
    var n := |w|;
    if n >= 2 {
      var t, x, depth :| IsMerge(w, modulus, lens, t, x, depth);
      var t', x', depth' :| IsMerge(w, modulus, lens', t', x', depth');
      var k := 2 * n - 2;
      assert |t.taken| == |t'.taken| == k + 1;
      SameRun(t, x, t', x', n, k);
      assert t.taken == t'.taken;
      SameSteps(t, t', n);
      assert t == t';
      forall l | 0 <= l < n ensures lens[l] == lens'[l] { SameLeaf(t, n, depth, lens, depth', lens', l); }
    }
  }

  // ----- there is a run for all weights

  lemma {:induction false} RunExists(w: seq<nat>, modulus: nat, k: nat) returns (t: Trace, x: Weights)
    requires |w| >= 2 && modulus > 0 && 2 <= k <= 2 * |w| - 2
    ensures Weighs(t, |w|, x) && x.w == w && x.modulus == modulus && |x.item| == k
  {
    var n := |w|;
    if k == 2 {
      t, x := FirstTrace(), FirstWeights(w, modulus);
      FirstWeighs(w, modulus);
    } else {
      t, x := RunExists(w, modulus, k - 1);
      QueueBounds(t, n, k - 1);
      var node, leaf := t.taken[k - 1], k - 1 - t.taken[k - 1];
      var takeNode := leaf >= n || (node < (k - 1) / 2 && x.node[node] < w[leaf]);
      var v;
      t, x, v := NextFacts(t, n, x, takeNode);
    }
  }

  lemma {:induction false} RunFinishes(t: Trace, n: nat, x: Weights)
    requires n >= 2 && Weighs(t, n, x) && |x.item| == 2 * n - 2
    ensures Finished(t, n)
  {
    var k := 2 * n - 2;
    QueueBounds(t, n, k);
    QueueBounds(t, n, k - 1);
    assert StepShape(t, n, k - 1);
    AllMerged(t, n, x, t.taken[k]);
  }

  /** The depth of a node, from its parent's. */
  ghost function DepthOf(t: Trace, n: nat, i: nat): nat
    requires Finished(t, n) && i < n - 1
    decreases n - i
  {
    if i == n - 2 then 0
    else
      ParentIsLater(t, n, i);
      DepthOf(t, n, t.nodeStep[i] / 2) + 1
  }

  lemma {:induction false} DepthsExist(t: Trace, n: nat) returns (depth: seq<nat>, lens: seq<nat>)
    requires Finished(t, n)
    ensures LeafDepths(t, n, depth, lens)
  {
    depth := seq(n - 1, i requires 0 <= i < n - 1 => DepthOf(t, n, i));
    forall i | 0 <= i < n - 2 ensures BelowParent(t, n, depth, i) { ParentIsLater(t, n, i); }
    lens := seq(n, l requires 0 <= l < n => depth[t.leafStep[l] / 2] + 1);
  }

  lemma {:induction false} MergeExists(w: seq<nat>, modulus: nat) returns (lens: seq<nat>)
    requires modulus > 0
    ensures MergedLengths(w, modulus, lens)
  {
    if |w| < 2 { return seq(|w|, _ => 1); }
    var t, x := RunExists(w, modulus, 2 * |w| - 2);
    RunFinishes(t, |w|, x);
    var depth;
    depth, lens := DepthsExist(t, |w|);
    assert IsMerge(w, modulus, lens, t, x, depth);
  }

  // ----- sorting brings the weights into one order only

  lemma {:induction false} KeysPermuted(s: seq<SymFreq>, t: seq<SymFreq>)
    requires multiset(s) == multiset(t)
    ensures multiset(Keys(s)) == multiset(Keys(t))
  {
    assert |multiset(s)| == |s| && |multiset(t)| == |t|;
    if s != [] {
      var init, last := s[..|s| - 1], s[|s| - 1];
      assert last in multiset(s);
      assert last in t;
      var k :| 0 <= k < |t| && t[k] == last;
      RemoveBoth(s, t, k);
      KeysPermuted(init, Without(t, k));
      assert Keys(s) == Keys(init) + [last.key];
      assert Keys(t) == Keys(t)[..k] + ([last.key] + Keys(t)[k + 1..]);
      assert Keys(Without(t, k)) == Keys(t)[..k] + Keys(t)[k + 1..];
    } else {
      assert t == [];
    }
  }

  lemma LastIsLargest(a: seq<nat>, v: nat)
    requires Sorted(a) && v in multiset(a)
    ensures a != [] && v <= a[|a| - 1]
  {
    assert v in a;
  }

  lemma WithoutLast(a: seq<nat>)
    requires a != [] && Sorted(a)
    ensures a == a[..|a| - 1] + [a[|a| - 1]] && Sorted(a[..|a| - 1])
    ensures multiset(a[..|a| - 1]) == multiset(a) - multiset{a[|a| - 1]} && a[|a| - 1] in multiset(a)
  {
    var init, last := a[..|a| - 1], a[|a| - 1];
    assert a == init + [last];
    assert multiset(a) == multiset(init) + multiset{last};
  }

  lemma {:induction false} SortedIsUnique(a: seq<nat>, b: seq<nat>)
    requires Sorted(a) && Sorted(b) && multiset(a) == multiset(b)
    ensures a == b
  {
    hide Sorted;
    assert |multiset(a)| == |a| && |multiset(b)| == |b|;
    if a != [] {
      WithoutLast(a);
      WithoutLast(b);
      LastIsLargest(a, b[|b| - 1]);
      LastIsLargest(b, a[|a| - 1]);
      SortedIsUnique(a[..|a| - 1], b[..|b| - 1]);
    }
  }

  /** Sorting by one byte after the other. */
  function Passes(s: seq<SymFreq>, p: nat): seq<SymFreq> {
    if p == 0 then s else Pass(Passes(s, p - 1), p - 1)
  }

  lemma {:induction false} PassesSort(s: seq<SymFreq>, p: nat)
    ensures SortedLow(Passes(s, p), p) && SameOrderPerKey(s, Passes(s, p)) && multiset(s) == multiset(Passes(s, p))
  {
    hide Pass;
    if p > 0 {
      PassesSort(s, p - 1);
      PassKeepsInvariant(s, Passes(s, p - 1), p - 1);
    }
  }

  /** Records can be sorted and measured. */
  lemma {:induction false} MeasureExists(s: seq<SymFreq>, passes: nat, modulus: nat) returns (order: seq<SymFreq>, lens: seq<nat>)
    requires modulus > 0 && forall i :: 0 <= i < |s| ==> s[i].key < Pow256(passes)
    ensures StablySorted(s, order) && MergedLengths(Keys(order), modulus, lens)
  {
    hide MergedLengths, SortedLow, SameOrderPerKey, SortedByKey, Passes;
    order := Passes(s, passes);
    PassesSort(s, passes);
    SortedWhenDone(s, order, passes, passes);
    lens := MergeExists(Keys(order), modulus);
  }

  /** However the records are sorted, their measured lengths are the same. */
  lemma {:induction false} MeasuredOnce(s: seq<SymFreq>, order: seq<SymFreq>, order': seq<SymFreq>, modulus: nat,
                                        lens: seq<nat>, lens': seq<nat>)
    requires StablySorted(s, order) && MergedLengths(Keys(order), modulus, lens)
    requires StablySorted(s, order') && MergedLengths(Keys(order'), modulus, lens')
    ensures lens == lens'
  {
    hide StablySorted, MergedLengths, Sorted;
    SortedKeys(s, order);
    SortedKeys(s, order');
    KeysPermuted(s, order);
    KeysPermuted(s, order');
    SortedIsUnique(Keys(order), Keys(order'));
    MergedOnce(Keys(order), modulus, lens, lens');
  }
}
