/** The archive reader's index: file numbers heap-sorted by case-folded name, and binary search in it. */
module ArchiveIndex {
  import opened Sequences
  import opened Wrappers
  import opened Arithmetic

  type Name = seq<Byte>

  // ----- the order of names

  function Lower(c: Byte): Byte {
    if 65 <= c <= 90 then c + 32 else c
  }

  function Fold(name: Name): (r: Name)
    ensures |r| == |name|
  {
    seq(|name|, i requires 0 <= i < |name| => Lower(name[i]))
  }

  /** Negative, zero or positive: byte by byte without case, a prefix before what it is a prefix of. */
  function Order(a: Name, b: Name): int {
    if a == [] then (if b == [] then 0 else -1)
    else if b == [] then 1
    else if Lower(a[0]) < Lower(b[0]) then -1
    else if Lower(a[0]) > Lower(b[0]) then 1
    else Order(a[1..], b[1..])
  }

  lemma {:induction false} OrderFlips(a: Name, b: Name)
    ensures Order(b, a) == -Order(a, b)
  {
    if a != [] && b != [] && Lower(a[0]) == Lower(b[0]) { OrderFlips(a[1..], b[1..]); }
  }

  lemma {:induction false} OrderTransitive(a: Name, b: Name, c: Name)
    requires Order(a, b) <= 0 && Order(b, c) <= 0
    ensures Order(a, c) <= 0 && (Order(a, b) < 0 || Order(b, c) < 0 ==> Order(a, c) < 0)
  {
    if a != [] && b != [] && c != [] && Lower(a[0]) == Lower(b[0]) == Lower(c[0]) {
      OrderTransitive(a[1..], b[1..], c[1..]);
    }
  }

  lemma {:induction false} OrderIsEqual(a: Name, b: Name)
    ensures Order(a, b) == 0 <==> Fold(a) == Fold(b)
  {
    if a != [] && b != [] {
      OrderIsEqual(a[1..], b[1..]);
      assert Fold(a) == [Lower(a[0])] + Fold(a[1..]) && Fold(b) == [Lower(b[0])] + Fold(b[1..]);
      if Fold(a) == Fold(b) {
        assert Fold(a)[0] == Fold(b)[0] && Fold(a)[1..] == Fold(b)[1..];
      }
    } else {
      assert |Fold(a)| == |a| && |Fold(b)| == |b|;
    }
  }

  /** Only what follows a common start decides. */
  lemma {:induction false} OrderSkips(a: Name, b: Name, k: nat)
    requires k <= |a| && k <= |b| && forall i :: 0 <= i < k ==> Lower(a[i]) == Lower(b[i])
    ensures Order(a, b) == Order(a[k..], b[k..])
  {
    if k > 0 {
      OrderSkips(a[1..], b[1..], k - 1);
      assert a[1..][k - 1..] == a[k..] && b[1..][k - 1..] == b[k..];
    }
  }

  method FilenameLess(l: Name, r: Name) returns (less: bool)
    ensures less <==> Order(l, r) < 0
  {
    var end := Least(|l|, |r|);
    var i := 0;
    while i < end
      invariant 0 <= i <= end && forall k :: 0 <= k < i ==> Lower(l[k]) == Lower(r[k])
    {
      if Lower(l[i]) != Lower(r[i]) { break; }
      i := i + 1;
    }
    OrderSkips(l, r, i);
    less := if i == end then |l| < |r| else Lower(l[i]) < Lower(r[i]);
  }

  method FilenameCompare(l: Name, r: Name) returns (comp: int)
    ensures (comp < 0 <==> Order(l, r) < 0) && (comp == 0 <==> Order(l, r) == 0)
  {
    var end := Least(|l|, |r|);
    var i := 0;
    while i < end
      invariant 0 <= i <= end && forall k :: 0 <= k < i ==> Lower(l[k]) == Lower(r[k])
    {
      if Lower(l[i]) != Lower(r[i]) { break; }
      i := i + 1;
    }
    OrderSkips(l, r, i);
    var left: int, right: int := |l|, |r|;
    if i < end { left, right := Lower(l[i]), Lower(r[i]); }
    comp := left - right;
  }

  // ----- heaps of file numbers

  predicate Indices(s: seq<nat>, names: seq<Name>) {
    forall k :: 0 <= k < |s| ==> s[k] < |names|
  }

  /** File i does not come after file j. */
  predicate Leq(names: seq<Name>, i: nat, j: nat)
    requires i < |names| && j < |names|
  {
    Order(names[i], names[j]) <= 0
  }

  lemma LeqTotal(names: seq<Name>, i: nat, j: nat)
    requires i < |names| && j < |names|
    ensures Leq(names, i, j) || Leq(names, j, i)
    ensures Order(names[i], names[j]) < 0 <==> !Leq(names, j, i)
  {
    OrderFlips(names[i], names[j]);
  }

  lemma LeqTransitive(names: seq<Name>, i: nat, j: nat, k: nat)
    requires i < |names| && j < |names| && k < |names| && Leq(names, i, j) && Leq(names, j, k)
    ensures Leq(names, i, k)
  {
    OrderTransitive(names[i], names[j], names[k]);
  }

  function Parent(i: nat): nat
    requires i > 0
  {
    (i - 1) / 2
  }

  /** Entry i is not after its parent. */
  predicate Under(names: seq<Name>, s: seq<nat>, i: nat)
    requires Indices(s, names) && 0 < i < |s|
  {
    Leq(names, s[i], s[Parent(i)])
  }

  /** From position `from` on, up to `end`, parents come last. */
  predicate Heap(names: seq<Name>, s: seq<nat>, from: nat, end: nat)
    requires Indices(s, names) && end <= |s|
  {
    forall i :: 0 < i < end && Parent(i) >= from ==> Under(names, s, i)
  }

  /** As a heap, but for the children of `hole`, which are not after the hole's parent. */
  predicate HeapBut(names: seq<Name>, s: seq<nat>, from: nat, end: nat, hole: nat)
    requires Indices(s, names) && end <= |s|
  {
    && (forall i :: 0 < i < end && Parent(i) >= from && Parent(i) != hole ==> Under(names, s, i))
    && (hole > from ==> forall i :: 0 < i < end && Parent(i) == hole && Parent(hole) >= from ==> Leq(names, s[i], s[Parent(hole)]))
  }

  ghost predicate Permutation(s: seq<nat>, t: seq<nat>) {
    multiset(s) == multiset(t)
  }

  lemma SwapPermutes(s: seq<nat>, i: nat, j: nat)
    requires i < |s| && j < |s|
    ensures Permutation(s, Swapped(s, i, j))
  {
  }

  lemma SwapIndices(names: seq<Name>, s: seq<nat>, i: nat, j: nat)
    requires Indices(s, names) && i < |s| && j < |s|
    ensures Indices(Swapped(s, i, j), names)
  {
  }

  /** The larger child has moved up and the hole down. */
  lemma SiftStep(names: seq<Name>, s: seq<nat>, from: nat, end: nat, hole: nat, child: nat)
    requires Indices(s, names) && end <= |s| && from <= hole < child < end && Parent(child) == hole
    requires HeapBut(names, s, from, end, hole) && Leq(names, s[hole], s[child])
    requires forall i :: 0 < i < end && Parent(i) == hole ==> Leq(names, s[i], s[child])
    ensures Indices(Swapped(s, hole, child), names) && HeapBut(names, Swapped(s, hole, child), from, end, child)
  {
    hide Leq;
    SwapIndices(names, s, hole, child);
    var t := Swapped(s, hole, child);
    forall i | 0 < i < end && Parent(i) >= from && Parent(i) != child ensures Under(names, t, i) {
      if Parent(i) == hole {
        assert t[Parent(i)] == s[child];
      } else {
        assert Under(names, s, i);
        if i == hole { assert Leq(names, s[child], s[Parent(hole)]); }
      }
    }
    forall i | 0 < i < end && Parent(i) == child && Parent(child) >= from ensures Leq(names, t[i], t[Parent(child)]) {
      assert Under(names, s, i);
    }
  }

  /** The hole's entry is in place. */
  lemma SiftDone(names: seq<Name>, s: seq<nat>, from: nat, end: nat, hole: nat)
    requires Indices(s, names) && end <= |s| && from <= hole && HeapBut(names, s, from, end, hole)
    requires forall i :: 0 < i < end && Parent(i) == hole ==> Leq(names, s[i], s[hole])
    ensures Heap(names, s, from, end)
  {
  }

  /** Nothing before `end` comes after anything behind it. */
  predicate Bounded(names: seq<Name>, s: seq<nat>, end: nat)
    requires Indices(s, names) && end <= |s|
  {
    forall i, j :: 0 <= i < end <= j < |s| ==> Leq(names, s[i], s[j])
  }

  lemma SwapBounded(names: seq<Name>, s: seq<nat>, end: nat, i: nat, j: nat)
    requires Indices(s, names) && end <= |s| && Bounded(names, s, end) && i < end && j < end
    ensures Indices(Swapped(s, i, j), names) && Bounded(names, Swapped(s, i, j), end) && Swapped(s, i, j)[end..] == s[end..]
  {
  }

  ghost predicate Sifting(names: seq<Name>, before: seq<nat>, s: seq<nat>, end: nat) {
    && |s| == |before| && end <= |s| && Indices(before, names) && Indices(s, names) && Permutation(before, s)
    && s[end..] == before[end..] && (Bounded(names, before, end) ==> Bounded(names, s, end))
  }

  lemma SiftingMore(names: seq<Name>, before: seq<nat>, s: seq<nat>, end: nat, i: nat, j: nat)
    requires Sifting(names, before, s, end) && i < end && j < end
    ensures Sifting(names, before, Swapped(s, i, j), end)
  {
    hide Bounded;
    SwapPermutes(s, i, j);
    SwapIndices(names, s, i, j);
    if Bounded(names, before, end) { SwapBounded(names, s, end, i, j); }
  }

  lemma ChildrenOf(hole: nat, i: nat)
    requires i > 0
    ensures Parent(i) == hole <==> i == 2 * hole + 1 || i == 2 * hole + 2
  {
  }

  lemma HoleOpens(names: seq<Name>, s: seq<nat>, root: nat, from: nat, end: nat)
    requires Indices(s, names) && end <= |s| && from == root + 1 && Heap(names, s, from, end)
    ensures HeapBut(names, s, root, end, root)
  {
  }

  /** Neither child comes after the chosen one. */
  lemma ChosenChild(names: seq<Name>, s: seq<nat>, end: nat, hole: nat, child: nat)
    requires Indices(s, names) && end <= |s| && 2 * hole + 1 <= child <= 2 * hole + 2 && child < end
    requires 2 * hole + 2 < end ==> Leq(names, s[2 * hole + 1], s[child]) && Leq(names, s[2 * hole + 2], s[child])
    ensures forall i :: 0 < i < end && Parent(i) == hole ==> Leq(names, s[i], s[child])
    ensures Parent(child) == hole
  {
    LeqTotal(names, s[child], s[child]);
    hide Leq;
    ChildrenOf(hole, child);
    forall i | 0 < i < end && Parent(i) == hole ensures Leq(names, s[i], s[child]) { ChildrenOf(hole, i); }
  }

  lemma ParentInPlace(names: seq<Name>, s: seq<nat>, end: nat, hole: nat, child: nat)
    requires Indices(s, names) && end <= |s| && hole < |s| && child < end && Leq(names, s[child], s[hole])
    requires forall i :: 0 < i < end && Parent(i) == hole ==> Leq(names, s[i], s[child])
    ensures forall i :: 0 < i < end && Parent(i) == hole ==> Leq(names, s[i], s[hole])
  {
    forall i | 0 < i < end && Parent(i) == hole ensures Leq(names, s[i], s[hole]) {
      LeqTransitive(names, s[i], s[child], s[hole]);
    }
  }

  lemma NoChildren(hole: nat, end: nat)
    requires 2 * hole + 1 >= end
    ensures forall i :: 0 < i < end ==> Parent(i) != hole
  {
    forall i | 0 < i < end ensures Parent(i) != hole { ChildrenOf(hole, i); }
  }

  /** The child whose file comes last. */
  method LargerChild(names: seq<Name>, a: array<nat>, root: nat, end: nat) returns (child: nat)
    requires Indices(a[..], names) && 2 * root + 1 < end <= a.Length
    ensures 2 * root + 1 <= child <= 2 * root + 2 && child < end
    ensures 2 * root + 2 < end ==> Leq(names, a[2 * root + 1], a[child]) && Leq(names, a[2 * root + 2], a[child])
  {
    hide Order;
    child := 2 * root + 1;
    assert a[child] == a[..][child];
    if child + 1 < end {
      assert a[child + 1] == a[..][child + 1];
      var less := FilenameLess(names[a[child]], names[a[child + 1]]);
      LeqTotal(names, a[child], a[child + 1]);
      LeqTotal(names, a[child], a[child]);
      LeqTotal(names, a[child + 1], a[child + 1]);
      if less { child := child + 1; }
    }
  }

  /** Lets the entry at `start` sink to its place. */
  method SiftDown(names: seq<Name>, a: array<nat>, start: nat, end: nat, ghost from: nat)
    requires Indices(a[..], names) && end <= a.Length && from == start + 1 && Heap(names, a[..], from, end)
    modifies a
    ensures Sifting(names, old(a[..]), a[..], end) && Heap(names, a[..], start, end)
  {
    hide Heap, HeapBut, Leq, Bounded, Order;
    ghost var before := a[..];
    var root := start;
    HoleOpens(names, a[..], start, from, end);
    SiftingStarts(names, before, end);
    while true
      invariant start <= root && Sifting(names, before, a[..], end) && HeapBut(names, a[..], start, end, root)
      decreases end - root
    {
      if 2 * root + 1 >= end {
        NoChildren(root, end);
        SiftDone(names, a[..], start, end, root);
        break;
      }
      ghost var s := a[..];
      var child := LargerChild(names, a, root, end);
      ChosenChild(names, s, end, root, child);
      var less := FilenameLess(names[a[root]], names[a[child]]);
      LeqTotal(names, s[root], s[child]);
      if !less {
        ParentInPlace(names, s, end, root, child);
        SiftDone(names, s, start, end, root);
        break;
      }
      SiftStep(names, s, start, end, root, child);
      SiftingMore(names, before, s, end, root, child);
      a[root], a[child] := a[child], a[root];
      assert a[..] == Swapped(s, root, child);
      root := child;
    }
  }

  lemma SiftingStarts(names: seq<Name>, s: seq<nat>, end: nat)
    requires Indices(s, names) && end <= |s|
    ensures Sifting(names, s, s, end)
  {
  }

  // ----- the sort

  predicate SortedByName(names: seq<Name>, s: seq<nat>, from: nat)
    requires Indices(s, names)
  {
    forall i, j :: from <= i < j < |s| ==> Leq(names, s[i], s[j])
  }

  /** In a heap nothing comes after the top. */
  lemma {:induction false} HeapTop(names: seq<Name>, s: seq<nat>, end: nat, i: nat)
    requires Indices(s, names) && end <= |s| && Heap(names, s, 0, end) && i < end
    ensures Leq(names, s[i], s[0])
  {
    if i > 0 {
      assert Under(names, s, i);
      HeapTop(names, s, end, Parent(i));
      LeqTransitive(names, s[i], s[Parent(i)], s[0]);
    } else {
      LeqTotal(names, s[0], s[0]);
    }
  }

  lemma TopTaken(names: seq<Name>, s: seq<nat>, last: nat, end: nat)
    requires Indices(s, names) && last + 1 == end <= |s| && Heap(names, s, 0, end)
    requires Bounded(names, s, end) && SortedByName(names, s, end)
    ensures Indices(Swapped(s, last, 0), names) && Bounded(names, Swapped(s, last, 0), last) && SortedByName(names, Swapped(s, last, 0), last)
    ensures Heap(names, Swapped(s, last, 0), 1, last)
  {
    SwapIndices(names, s, last, 0);
    var t := Swapped(s, last, 0);
    hide Leq;
    forall i, j | 0 <= i < last <= j < |t| ensures Leq(names, t[i], t[j]) {
      if j == last { HeapTop(names, s, end, if i == 0 then last else i); }
    }
    forall i | 0 < i < last && Parent(i) >= 1 ensures Under(names, t, i) { assert Under(names, s, i); }
  }

  lemma SortedStays(names: seq<Name>, s: seq<nat>, t: seq<nat>, from: nat)
    requires Indices(s, names) && Indices(t, names) && |s| == |t| && from <= |s| && s[from..] == t[from..]
    requires SortedByName(names, s, from)
    ensures SortedByName(names, t, from)
  {
    forall i, j | from <= i < j < |t| ensures Leq(names, t[i], t[j]) {
      assert t[i] == t[from..][i - from] == s[i] && t[j] == t[from..][j - from] == s[j];
    }
  }

  lemma PermutationChain(s: seq<nat>, t: seq<nat>, u: seq<nat>)
    requires Permutation(s, t) && Permutation(t, u)
    ensures Permutation(s, u)
  {
  }

  /** Sorts file numbers by name. */
  method SortByFilename(names: seq<Name>, a: array<nat>)
    requires Indices(a[..], names)
    modifies a
    ensures Indices(a[..], names) && Permutation(old(a[..]), a[..]) && SortedByName(names, a[..], 0)
  {
    hide Heap, Leq, Bounded, Order, Permutation, SortedByName;
    ghost var before := a[..];
    var size := a.Length;
    BuildHeap(names, a);
    NothingSorted(names, a[..]);
    var end := size - 1;
    while end > 0
      invariant end < size && (size > 0 ==> end >= 0)
      invariant Indices(a[..], names) && Permutation(before, a[..])
      invariant end >= 0 ==> Heap(names, a[..], 0, end + 1) && Bounded(names, a[..], end + 1) && SortedByName(names, a[..], end + 1)
    {
      ghost var s := a[..];
      TopTaken(names, s, end, end + 1);
      SwapPermutes(s, end, 0);
      a[end], a[0] := a[0], a[end];
      assert a[..] == Swapped(s, end, 0);
      PermutationChain(before, s, a[..]);
      ghost var t := a[..];
      SiftDown(names, a, 0, end, 1);
      SiftedTail(names, t, a[..], end);
      PermutationChain(before, t, a[..]);
      end := end - 1;
    }
    AllSorted(names, a[..]);
  }

  lemma SiftedTail(names: seq<Name>, t: seq<nat>, u: seq<nat>, end: nat)
    requires Sifting(names, t, u, end) && Bounded(names, t, end) && SortedByName(names, t, end)
    ensures Permutation(t, u) && Bounded(names, u, end) && SortedByName(names, u, end)
  {
    hide Leq, Bounded;
    SortedStays(names, t, u, end);
  }

  lemma NothingSorted(names: seq<Name>, s: seq<nat>)
    requires Indices(s, names)
    ensures Bounded(names, s, |s|) && SortedByName(names, s, |s|)
  {
  }

  /** With one entry or none left, everything is sorted. */
  lemma AllSorted(names: seq<Name>, s: seq<nat>)
    requires Indices(s, names) && (|s| > 1 ==> Bounded(names, s, 1) && SortedByName(names, s, 1))
    ensures SortedByName(names, s, 0)
  {
  }

  method BuildHeap(names: seq<Name>, a: array<nat>)
    requires Indices(a[..], names)
    modifies a
    ensures Indices(a[..], names) && Permutation(old(a[..]), a[..]) && Heap(names, a[..], 0, a.Length)
  {
    hide Heap, Leq, Bounded, Order, Permutation;
    ghost var before := a[..];
    var size := a.Length;
    var start: int := (size - 2) / 2;
    LeavesAreHeap(names, a[..], start + 1);
    SamePermutation(before);
    while start >= 0
      invariant -1 <= start && start < size && Indices(a[..], names) && Permutation(before, a[..])
      invariant Heap(names, a[..], start + 1, size)
    {
      ghost var s := a[..];
      SiftDown(names, a, start, size, start + 1);
      PermutationChain(before, s, a[..]);
      start := start - 1;
    }
  }

  lemma SamePermutation(s: seq<nat>)
    ensures Permutation(s, s)
  {
  }

  lemma LeavesAreHeap(names: seq<Name>, s: seq<nat>, from: nat)
    requires Indices(s, names) && 2 * from + 1 >= |s|
    ensures Heap(names, s, from, |s|)
  {
  }

  // ----- the search

  predicate SameName(a: Name, b: Name) {
    Fold(a) == Fold(b)
  }

  /** Names are the same exactly if they have the same length and differ, if at all, in the case of letters: a capital, 65 to
      90, and the letter 32 behind it. */
  lemma SameNameOnBytes(a: Name, b: Name)
    ensures SameName(a, b) <==>
      |a| == |b| && forall i :: 0 <= i < |a| ==> a[i] == b[i] || (65 <= a[i] <= 90 && b[i] == a[i] + 32) || (65 <= b[i] <= 90 && a[i] == b[i] + 32)
  {
    if SameName(a, b) {
      assert |Fold(a)| == |a| && |Fold(b)| == |b|;
      forall i | 0 <= i < |a|
        ensures a[i] == b[i] || (65 <= a[i] <= 90 && b[i] == a[i] + 32) || (65 <= b[i] <= 90 && a[i] == b[i] + 32)
      {
        assert Fold(a)[i] == Fold(b)[i];
      }
    }
  }

  /** Names that are the same but for case order alike against any third. */
  lemma {:induction false} CaseDoesNotOrder(a: Name, b: Name, c: Name)
    requires SameName(a, b)
    ensures Order(a, c) == Order(b, c) && Order(c, a) == Order(c, b)
  {
    assert |Fold(a)| == |a| && |Fold(b)| == |b|;
    if a != [] && c != [] {
      assert Fold(a)[0] == Fold(b)[0];
      assert Fold(a)[1..] == Fold(a[1..]) && Fold(b)[1..] == Fold(b[1..]);
      CaseDoesNotOrder(a[1..], b[1..], c[1..]);
    }
  }

  /** The first place where two names differ in more than case decides, by the bytes with capitals made small; if there is none,
      the shorter name comes first. */
  lemma OrderOnBytes(a: Name, b: Name, k: nat)
    requires k <= |a| && k <= |b| && SameName(a[..k], b[..k])
    ensures k == |a| < |b| ==> Order(a, b) < 0
    ensures k < |a| && k < |b| ==>
      var x, y := if 65 <= a[k] <= 90 then a[k] + 32 else a[k], if 65 <= b[k] <= 90 then b[k] + 32 else b[k];
      (x < y ==> Order(a, b) < 0) && (x > y ==> Order(a, b) > 0)
  {
    forall i | 0 <= i < k ensures Lower(a[i]) == Lower(b[i]) { assert Fold(a[..k])[i] == Fold(b[..k])[i]; }
    OrderSkips(a, b, k);
  }

  /** Binary search in the index; -1 if there is no such file. */
  method LocateBinary(names: seq<Name>, indices: seq<nat>, filename: Name) returns (r: int)
    requires Indices(indices, names) && SortedByName(names, indices, 0)
    requires forall f :: 0 <= f < |names| ==> f in indices
    ensures r >= 0 ==> r < |names| && SameName(names[r], filename)
    ensures r < 0 ==> r == -1 && forall f :: 0 <= f < |names| ==> !SameName(names[f], filename)
  {
    hide Order, Fold;
    var l, h := 0, |indices| - 1;
    while l <= h
      invariant 0 <= l <= h + 1 <= |indices|
      invariant forall k :: 0 <= k < l ==> Order(names[indices[k]], filename) < 0
      invariant forall k :: h < k < |indices| ==> Order(names[indices[k]], filename) > 0
      decreases h - l
    {
      var m := (l + h) / 2;
      var comp := FilenameCompare(names[indices[m]], filename);
      OrderIsEqual(names[indices[m]], filename);
      if comp == 0 {
        return indices[m];
      } else if comp < 0 {
        forall k | 0 <= k <= m ensures Order(names[indices[k]], filename) < 0 { BeforeToo(names, indices, k, m, filename); }
        l := m + 1;
      } else {
        forall k | m <= k < |indices| ensures Order(names[indices[k]], filename) > 0 { AfterToo(names, indices, m, k, filename); }
        h := m - 1;
      }
    }
    forall f | 0 <= f < |names| ensures !SameName(names[f], filename) {
      assert f in indices;
      var k :| 0 <= k < |indices| && indices[k] == f;
      OrderIsEqual(names[f], filename);
    }
    r := -1;
  }

  lemma BeforeToo(names: seq<Name>, indices: seq<nat>, k: nat, m: nat, filename: Name)
    requires Indices(indices, names) && SortedByName(names, indices, 0) && k <= m < |indices|
    requires Order(names[indices[m]], filename) < 0
    ensures Order(names[indices[k]], filename) < 0
  {
    LeqTotal(names, indices[m], indices[m]);
    assert Leq(names, indices[k], indices[m]);
    OrderTransitive(names[indices[k]], names[indices[m]], filename);
  }

  lemma AfterToo(names: seq<Name>, indices: seq<nat>, m: nat, k: nat, filename: Name)
    requires Indices(indices, names) && SortedByName(names, indices, 0) && m <= k < |indices|
    requires Order(names[indices[m]], filename) > 0
    ensures Order(names[indices[k]], filename) > 0
  {
    LeqTotal(names, indices[m], indices[m]);
    assert Leq(names, indices[m], indices[k]);
    OrderFlips(names[indices[m]], filename);
    OrderFlips(names[indices[k]], filename);
    OrderTransitive(filename, names[indices[m]], names[indices[k]]);
  }

  // ----- the search without an index

  /** What the central directory says of a file; lengths are 16 bits wide. */
  type Field = s: seq<Byte> | |s| <= 0xFFFF

  datatype Entry = Entry(name: Field, comment: Field)

  function Names(files: seq<Entry>): (names: seq<Name>)
    ensures |names| == |files| && forall f :: 0 <= f < |files| ==> names[f] == files[f].name
  {
    seq(|files|, f requires 0 <= f < |files| => files[f].name)
  }

  predicate Separates(c: Byte) {
    c == 47 || c == 92 || c == 58
  }

  /** Where the last part of a path starts: no '/', ':' or '\\' behind, and one in front of it, if anything is. */
  ghost predicate LastPart(name: Name, start: nat) {
    && start <= |name| && (forall i :: start <= i < |name| ==> name[i] !in {47, 58, 92})
    && (start > 0 ==> name[start - 1] in {47, 58, 92})
  }

  lemma OneLastPart(name: Name, a: nat, b: nat)
    requires LastPart(name, a) && LastPart(name, b)
    ensures a == b
  {
  }

  /** Equal byte by byte, or but for the case of letters. */
  ghost predicate EqualNames(a: Name, b: Name, exact: bool) {
    |a| == |b| && forall i :: 0 <= i < |a| ==>
      a[i] == b[i] || (!exact && ((65 <= a[i] <= 90 && b[i] == a[i] + 32) || (65 <= b[i] <= 90 && a[i] == b[i] + 32)))
  }

  lemma EqualIsSame(a: Name, b: Name)
    ensures EqualNames(a, b, true) <==> a == b
    ensures EqualNames(a, b, false) <==> SameName(a, b)
  {
    SameNameOnBytes(a, b);
  }

  /** What is asked for: a name, with its path or for the last part only, with case or without; and perhaps a comment. An
      empty one asks for nothing. */
  datatype Query = Query(name: Name, comment: Option<Name>, exact: bool, ignorePath: bool)

  ghost predicate Answers(file: Entry, q: Query) {
    && (q.comment.Some? && q.comment.value != [] ==> EqualNames(file.comment, q.comment.value, q.exact))
    && exists start :: NameFrom(file.name, start, q)
  }

  ghost predicate NameFrom(name: Name, start: nat, q: Query) {
    start <= |name| && (if q.ignorePath then LastPart(name, start) else start == 0) && EqualNames(name[start..], q.name, q.exact)
  }

  method StartOfLastPart(name: Name) returns (start: nat)
    ensures LastPart(name, start)
  {
    start := |name|;
    while start > 0
      invariant start <= |name| && forall i :: start <= i < |name| ==> !Separates(name[i])
    {
      if Separates(name[start - 1]) { break; }
      start := start - 1;
    }
  }

  /** The name as it is compared. */
  method NameMatches(name: Name, q: Query) returns (matches: bool)
    ensures matches <==> exists start :: NameFrom(name, start, q)
  {
    hide Fold;
    var start := 0;
    if q.ignorePath && |name| > 0 { start := StartOfLastPart(name); }
    forall other | NameFrom(name, other, q) ensures other == start {
      if q.ignorePath { OneLastPart(name, other, start); }
    }
    DifferentLengths(name[start..], q.name);
    matches := false;
    if |name| - start == |q.name| { matches := StringEqual(q.name, name[start..], q.exact); }
    assert matches <==> NameFrom(name, start, q);
  }

  method CommentMatches(comment: Name, q: Query) returns (matches: bool)
    ensures matches <==> (q.comment.Some? && q.comment.value != [] ==> EqualNames(comment, q.comment.value, q.exact))
  {
    hide Fold;
    matches := true;
    if q.comment.Some? && q.comment.value != [] {
      DifferentLengths(comment, q.comment.value);
      matches := false;
      if |comment| == |q.comment.value| { matches := StringEqual(q.comment.value, comment, q.exact); }
    }
  }

  /** The first file that answers; names and comments that no field can hold are not looked for. */
  method LocateLinear(files: seq<Entry>, q: Query) returns (r: int)
    ensures r >= 0 ==> r < |files| && Answers(files[r], q) && forall f :: 0 <= f < r ==> !Answers(files[f], q)
    ensures r < 0 ==> r == -1 && forall f :: 0 <= f < |files| ==> !Answers(files[f], q)
  {
    hide Answers;
    forall f | 0 <= f < |files| ensures TooLong(q) ==> !Answers(files[f], q) { NothingThatLong(files[f], q); }
    if |q.name| > 0xFFFF || (q.comment.Some? && |q.comment.value| > 0xFFFF) { return -1; }
    for i := 0 to |files|
      invariant forall f :: 0 <= f < i ==> !Answers(files[f], q)
    {
      TooShort(files[i], q);
      if |files[i].name| >= |q.name| {
        var commented := CommentMatches(files[i].comment, q);
        if commented {
          var named := NameMatches(files[i].name, q);
          AnswersBoth(files[i], q);
          if named { return i; }
        }
        AnswersBoth(files[i], q);
      }
    }
    r := -1;
  }

  ghost predicate TooLong(q: Query) {
    |q.name| > 0xFFFF || (q.comment.Some? && |q.comment.value| > 0xFFFF)
  }

  lemma NothingThatLong(file: Entry, q: Query)
    ensures TooLong(q) ==> !Answers(file, q)
  {
    hide Fold;
    TooShort(file, q);
    if q.comment.Some? { DifferentLengths(file.comment, q.comment.value); }
  }

  lemma TooShort(file: Entry, q: Query)
    ensures |file.name| < |q.name| ==> !Answers(file, q)
  {
    hide Fold;
    if exists start :: NameFrom(file.name, start, q) {
      var start: nat :| NameFrom(file.name, start, q);
      DifferentLengths(file.name[start..], q.name);
    }
  }

  lemma AnswersBoth(file: Entry, q: Query)
    ensures Answers(file, q) <==>
      (q.comment.Some? && q.comment.value != [] ==> EqualNames(file.comment, q.comment.value, q.exact))
      && exists start :: NameFrom(file.name, start, q)
  {
  }

  lemma DifferentLengths(a: Name, b: Name)
    ensures |a| != |b| ==> !SameName(a, b)
  {
    assert |Fold(a)| == |a| && |Fold(b)| == |b|;
  }

  method StringEqual(a: Name, b: Name, exact: bool) returns (equal: bool)
    requires |a| == |b|
    ensures equal <==> EqualNames(b, a, exact)
  {
    EqualIsSame(b, a);
    if exact { return a == b; }
    for i := 0 to |a|
      invariant forall k :: 0 <= k < i ==> Lower(a[k]) == Lower(b[k])
    {
      if Lower(a[i]) != Lower(b[i]) {
        assert Fold(a)[i] != Fold(b)[i];
        return false;
      }
    }
    assert Fold(a) == Fold(b);
    equal := true;
  }

  /** An index of all files. */
  ghost predicate IndexOf(names: seq<Name>, indices: seq<nat>) {
    Indices(indices, names) && SortedByName(names, indices, 0) && forall f :: 0 <= f < |names| ==> f in indices
  }

  /** Opening an archive: all file numbers, sorted. */
  method BuildIndex(names: seq<Name>) returns (a: array<nat>)
    ensures fresh(a) && IndexOf(names, a[..]) && a.Length == |names|
  {
    hide SortedByName, Permutation;
    a := new nat[|names|](i requires 0 <= i < |names| => i);
    ghost var before := a[..];
    SortByFilename(names, a);
    forall f | 0 <= f < |names| ensures f in a[..] {
      assert before[f] == f;
      StillThere(before, a[..], f);
    }
  }

  /** With an index or without one, a file is found exactly if one answers. The index serves plain questions only. */
  method LocateFile(files: seq<Entry>, indices: seq<nat>, q: Query) returns (r: int)
    requires indices != [] ==> IndexOf(Names(files), indices)
    ensures r >= 0 <==> exists f :: 0 <= f < |files| && Answers(files[f], q)
    ensures r >= 0 ==> r < |files| && Answers(files[r], q)
    ensures r < 0 ==> r == -1
  {
    hide SortedByName, Fold, Answers;
    if !q.ignorePath && !q.exact && q.comment.None? && indices != [] {
      r := LocateBinary(Names(files), indices, q.name);
      forall f | 0 <= f < |files| ensures Answers(files[f], q) <==> SameName(Names(files)[f], q.name) { PlainAnswer(files[f], q); }
    } else {
      r := LocateLinear(files, q);
    }
  }

  lemma PlainAnswer(file: Entry, q: Query)
    requires !q.ignorePath && !q.exact && q.comment.None?
    ensures Answers(file, q) <==> SameName(file.name, q.name)
  {
    hide Fold, EqualNames;
    EqualIsSame(file.name, q.name);
    assert file.name[0..] == file.name;
    assert NameFrom(file.name, 0, q) <==> SameName(file.name, q.name);
  }

  lemma StillThere(s: seq<nat>, t: seq<nat>, x: nat)
    requires Permutation(s, t) && x in s
    ensures x in t
  {
    assert x in multiset(s);
    assert x in multiset(t);
  }
}
