/** From symbol frequencies to a histogram of limited code lengths: the steps that both Huffman
    table builders share. */
module CodeLengths {
  import opened Arithmetic
  import opened HuffmanCost
  import opened SymbolCounts
  import opened RadixSort
  import opened MergeWeights
  import opened MergeOptimality
  import opened MinimumRedundancy
  import opened LengthLimit
  import opened CanonicalCodes

  // ----- sorting keeps sums and distinctness

  lemma {:induction false} SumSnocKeys(s: seq<SymFreq>)
    requires s != []
    ensures Sum(Keys(s)) == Sum(Keys(s[..|s| - 1])) + s[|s| - 1].key
  {
    assert Keys(s)[..|s| - 1] == Keys(s[..|s| - 1]);
  }

  lemma {:induction false} SumWithoutKeys(s: seq<SymFreq>, k: nat)
    requires k < |s|
    ensures Sum(Keys(s)) == Sum(Keys(Without(s, k))) + s[k].key
  {
    SumWithout(Keys(s), k);
    assert Without(Keys(s), k) == Keys(Without(s, k));
  }

  lemma {:induction false} SumOfPermutation(s: seq<SymFreq>, t: seq<SymFreq>)
    requires multiset(s) == multiset(t)
    ensures |s| == |t| && Sum(Keys(s)) == Sum(Keys(t))
  {
    assert |multiset(s)| == |s| && |multiset(t)| == |t|;
    if s != [] {
      var last := s[|s| - 1];
      assert last in multiset(s);
      assert last in t;
      var k :| 0 <= k < |t| && t[k] == last;
      RemoveBoth(s, t, k);
      SumOfPermutation(s[..|s| - 1], Without(t, k));
      SumSnocKeys(s);
      SumWithoutKeys(t, k);
    }
  }

  lemma {:induction false} RemoveBoth(s: seq<SymFreq>, t: seq<SymFreq>, k: nat)
    requires s != [] && k < |t| && t[k] == s[|s| - 1] && multiset(s) == multiset(t)
    ensures multiset(s[..|s| - 1]) == multiset(Without(t, k))
  {
    var x, init, rest := t[k], s[..|s| - 1], Without(t, k);
    assert s == init + [x];
    assert multiset(s) == multiset(init) + multiset{x};
    assert t == t[..k] + ([x] + t[k + 1..]);
    assert multiset(t) == multiset(t[..k]) + multiset{x} + multiset(t[k + 1..]);
    assert multiset(rest) == multiset(t[..k]) + multiset(t[k + 1..]);
    assert multiset(init) == multiset(s) - multiset{x};
    assert multiset(rest) == multiset(t) - multiset{x};
  }

  ghost predicate Distinct(s: seq<SymFreq>) {
    forall i, j :: 0 <= i < j < |s| ==> s[i] != s[j]
  }

  lemma {:induction false} DistinctCount(s: seq<SymFreq>, x: SymFreq)
    requires Distinct(s)
    ensures multiset(s)[x] <= 1
  {
    if s != [] {
      var init, last := s[..|s| - 1], s[|s| - 1];
      DistinctCount(init, x);
      assert s == init + [last];
      assert multiset(s) == multiset(init) + multiset{last};
      if x == last {
        forall k | 0 <= k < |init| ensures init[k] != x { assert s[k] == init[k]; }
        assert x !in init;
      }
    }
  }

  lemma {:induction false} DistinctPermutation(s: seq<SymFreq>, t: seq<SymFreq>)
    requires Distinct(s) && multiset(s) == multiset(t)
    ensures Distinct(t)
  {
    forall i, j | 0 <= i < j < |t| ensures t[i] != t[j] {
      DistinctCount(s, t[i]);
      assert t == t[..j] + ([t[j]] + t[j + 1..]);
      assert multiset(t) == multiset(t[..j]) + multiset([t[j]]) + multiset(t[j + 1..]);
      assert t[..j][i] == t[i];
      assert t[i] in multiset(t[..j]);
    }
  }

  lemma {:induction false} SortedKeys(s: seq<SymFreq>, t: seq<SymFreq>)
    requires StablySorted(s, t)
    ensures |s| == |t| && multiset(s) == multiset(t)
    ensures Sorted(Keys(t)) && Sum(Keys(t)) == Sum(Keys(s))
  {
    SameOrderIsPermutation(s, t);
    SumOfPermutation(s, t);
  }

  // ----- histogram of lengths

  /** c[l] is the number of lengths l. */
  ghost predicate CountsOf(c: seq<int>, lens: seq<nat>) {
    forall l :: 1 <= l < |c| ==> c[l] == CountOf(lens, l)
  }

  lemma {:induction false} CountsSnoc(c: seq<int>, lens: seq<nat>, l: nat)
    requires CountsOf(c, lens) && l < |c|
    ensures CountsOf(c[l := c[l] + 1], lens + [l])
  {
    assert (lens + [l])[..|lens|] == lens;
  }

  lemma {:induction false} TotalOfCounts(c: seq<int>, lens: seq<nat>, k: nat)
    requires CountsOf(c, lens) && k < |c|
    requires forall i :: 0 <= i < |lens| ==> 1 <= lens[i]
    ensures Total(c, k) <= |lens|
    ensures (forall i :: 0 <= i < |lens| ==> lens[i] <= k) ==> Total(c, k) == |lens|
    decreases |lens|
  {
    if lens == [] {
      EmptyTotal(c, k);
    } else {
      var init, last := lens[..|lens| - 1], lens[|lens| - 1];
      if last < |c| {
        var c0 := c[last := c[last] - 1];
        TotalOfCounts(c0, init, k);
        if last <= k { TotalUpdate(c, k, last, c[last] - 1); } else { TotalSame(c, c0, k); }
      } else {
        TotalOfCounts(c, init, k);
      }
    }
  }

  lemma {:induction false} EmptyTotal(c: seq<int>, k: nat)
    requires CountsOf(c, []) && k < |c|
    ensures Total(c, k) == 0
  {
    if k > 0 { EmptyTotal(c, k - 1); }
  }

  /** The space of a histogram is the Kraft sum of the lengths. */
  lemma {:induction false} SpaceOfCounts(c: seq<int>, lens: seq<nat>, k: nat, m: nat)
    requires CountsOf(c, lens) && k < |c| && k <= m
    requires forall i :: 0 <= i < |lens| ==> 1 <= lens[i] <= k
    ensures AllAtMost(lens, m) && Space(c, k, m) == Kraft(lens, m)
    decreases |lens|
  {
    hide Kraft, Space;
    if lens == [] {
      EmptySpace(c, k, m);
    } else {
      var init, last := lens[..|lens| - 1], lens[|lens| - 1];
      var c0 := c[last := c[last] - 1];
      SpaceOfCounts(c0, init, k, m);
      SpaceUpdate(c, k, m, last, c[last] - 1);
      assert lens == init + [last];
      KraftSnoc(init, last, m);
    }
  }

  lemma {:induction false} EmptySpace(c: seq<int>, k: nat, m: nat)
    requires CountsOf(c, []) && k < |c| && k <= m
    ensures Space(c, k, m) == 0 && Kraft([], m) == 0
  {
    if k > 0 { EmptySpace(c, k - 1, m); }
  }

  /** Counts the lengths; there is room for those up to 32 only, and `fits` says that no other was met. */
  method CountLengths(a: array<SymFreq>, n: nat) returns (fits: bool, c: array<int>)
    requires n <= a.Length
    ensures fresh(c) && c.Length == MAX_HUFF_CODESIZE + 1
    ensures fits <==> forall i :: 0 <= i < n ==> a[i].key <= MAX_HUFF_CODESIZE
    ensures fits ==> CountsOf(c[..], Keys(a[..n]))
  {
    c := new int[MAX_HUFF_CODESIZE + 1](_ => 0);
    for i := 0 to n
      invariant forall k :: 0 <= k < i ==> a[k].key <= MAX_HUFF_CODESIZE
      invariant CountsOf(c[..], Keys(a[..i]))
    {
      if a[i].key > MAX_HUFF_CODESIZE { return false, c; }
      CountsSnoc(c[..], Keys(a[..i]), a[i].key);
      assert Keys(a[..i + 1]) == Keys(a[..i]) + [a[i].key];
      c[a[i].key] := c[a[i].key] + 1;
    }
    fits := true;
  }

  // ----- the shared steps

  /** No code would need more than 32 bits: the histogram has room for these lengths. */
  ghost predicate Shallow(s: seq<SymFreq>, modulus: nat) {
    forall t, lens :: StablySorted(s, t) && MergedLengths(Keys(t), modulus, lens) && lens != [] ==> lens[0] <= 32
  }

  /** All smaller totals are shallow. */
  lemma {:induction false} SmallTotalsAreShallow(s: seq<SymFreq>, modulus: nat)
    requires forall i :: 0 <= i < |s| ==> s[i].key > 0
    requires Sum(Keys(s)) < modulus && Sum(Keys(s)) < DEEP_TOTAL
    ensures Shallow(s, modulus)
  {
    forall t, lens | StablySorted(s, t) && MergedLengths(Keys(t), modulus, lens) && lens != []
      ensures lens[0] <= 32
    {
      SortedKeys(s, t);
      if |t| >= 2 {
        assert t[0] in multiset(s);
        assert t[0] in s;
        MergedDepthLimits(Keys(t), modulus, lens);
      }
    }
  }

  lemma ShallowFits(s: seq<SymFreq>, order: seq<SymFreq>, modulus: nat, lens: seq<nat>)
    requires Shallow(s, modulus) && StablySorted(s, order) && MergedLengths(Keys(order), modulus, lens)
    ensures lens != [] ==> lens[0] <= 32
  {
  }

  /** Lengths that the histogram can hold, ready for limiting. */
  lemma {:induction false} ReadyToLimit(c: seq<int>, w: seq<nat>, modulus: nat, lens: seq<nat>)
    requires |c| == MAX_HUFF_CODESIZE + 1 && CountsOf(c, lens) && |w| >= 1
    requires MergedLengths(w, modulus, lens) && lens[0] <= 32
    ensures forall i :: 0 <= i < |lens| ==> 1 <= lens[i] <= 32
    ensures Counts(c) && Total(c, 32) == |w|
    ensures |w| >= 2 ==> Space(c, 32, 32) == TWO_TO_32
  {
    if |w| >= 2 {
      MergedIsComplete(w, modulus, lens, 32);
      SpaceOfCounts(c, lens, 32, 32);
      Pow32();
    }
    TotalOfCounts(c, lens, 32);
  }

  /** Codes that respect the limit already are left alone. */
  lemma {:induction false} NothingToLimit(c: seq<int>, lens: seq<nat>, limit: nat)
    requires Counts(c) && CountsOf(c, lens) && 1 <= limit <= 16
    requires forall i :: 0 <= i < |lens| ==> 1 <= lens[i] <= limit
    requires Space(c, 32, 32) == TWO_TO_32
    ensures Folded(c, limit) == c && Space(c, limit, limit) == Pow2(limit)
  {
    TotalOfCounts(c, lens, limit);
    TotalOfCounts(c, lens, 32);
    SpaceOfCounts(c, lens, limit, 32);
    SpaceOfCounts(c, lens, 32, 32);
    SpaceScales(c, limit, limit, 32 - limit);
    Pow2Add(limit, 32 - limit);
    Pow32();
    CancelInt(Space(c, limit, limit), Pow2(limit), Pow2(32 - limit));
  }

  lemma CancelInt(a: int, b: int, unit: nat)
    requires unit > 0 && a * unit == b * unit
    ensures a == b
  {
    assert a < b ==> (b - a) * unit > 0;
    assert b < a ==> (a - b) * unit > 0;
  }

  /** Limiting takes the counts of the measured lengths to c. */
  ghost predicate LimitsTo(before: seq<int>, lens: seq<nat>, limit: nat, c: seq<int>) {
    && Counts(before) && CountsOf(before, lens) && 1 <= limit <= 16
    && Space(before, 32, 32) == TWO_TO_32
    && var folded := Folded(before, limit);
      && Space(folded, limit, limit) >= Pow2(limit)
      && c == Repaired(folded, limit, Space(folded, limit, limit) - Pow2(limit))
  }

  /** `c` counts the lengths a table builder may use: none over the limit, the code space used
      up if there are two symbols or more, and the minimum-redundancy lengths if those fit. */
  ghost predicate LimitedCounts(c: seq<int>, n: nat, lens: seq<nat>, limit: nat) {
    && Counts(c) && 1 <= limit <= 16 && |lens| == n
    && Total(c, limit) == n
    && (n == 1 ==> c[1] == 1)
    && (n >= 2 ==> Space(c, limit, limit) == Pow2(limit))
    && (n >= 1 && lens[0] <= limit ==> CountsOf(c, lens))
    && (n >= 2 ==> exists before :: LimitsTo(before, lens, limit, c))
  }

  lemma {:induction false} LongestFirst(w: seq<nat>, modulus: nat, lens: seq<nat>)
    requires MergedLengths(w, modulus, lens)
    ensures |lens| == |w| && forall i :: 0 <= i < |lens| ==> 1 <= lens[i] <= lens[0]
  {
    if |w| >= 2 { MergedIsComplete(w, modulus, lens, lens[0]); }
  }

  /** Sorts the records and replaces their keys by code lengths. */
  method SortAndMeasure(n: nat, syms0: array<SymFreq>, syms1: array<SymFreq>, passes: nat, modulus: nat)
      returns (syms: array<SymFreq>, ghost order: seq<SymFreq>)
    requires syms0 != syms1 && n <= syms0.Length && n <= syms1.Length
    requires passes >= 1 && modulus == Pow256(passes) && n <= modulus
    requires forall i :: 0 <= i < n ==> syms0[i].key < modulus
    modifies syms0, syms1
    ensures syms == syms0 || syms == syms1
    ensures StablySorted(old(syms0[..n]), order) && |order| == n
    ensures forall i :: 0 <= i < n ==> syms[i].symIndex == order[i].symIndex
    ensures MergedLengths(Keys(order), modulus, Keys(syms[..n]))
  {
    hide StablySorted, MergedLengths;
    syms := RadixSortSyms(n, syms0, syms1, passes);
    order := syms[..n];
    CalculateMinimumRedundancy(syms, n, modulus);
  }

  /** Sorts the records, computes code lengths and, if the histogram has room for them, limits them. The records end up in
      ascending order of frequency in one of the two buffers. */
  method LimitedLengthCounts(n: nat, syms0: array<SymFreq>, syms1: array<SymFreq>, passes: nat, modulus: nat, limit: nat)
      returns (fits: bool, syms: array<SymFreq>, c: array<int>, ghost order: seq<SymFreq>, ghost lens: seq<nat>)
    requires syms0 != syms1 && n <= syms0.Length && n <= syms1.Length
    requires passes >= 1 && modulus == Pow256(passes) && n <= modulus
    requires forall i :: 0 <= i < n ==> syms0[i].key < modulus
    requires 1 <= limit <= 16 && n <= Pow2(limit)
    modifies syms0, syms1
    ensures syms == syms0 || syms == syms1
    ensures StablySorted(old(syms0[..n]), order) && |order| == n
    ensures forall i :: 0 <= i < n ==> syms[i].symIndex == order[i].symIndex
    ensures MergedLengths(Keys(order), modulus, lens)
    ensures fresh(c) && c.Length == MAX_HUFF_CODESIZE + 1
    ensures fits <==> (lens != [] ==> lens[0] <= 32)
    ensures fits ==> LimitedCounts(c[..], n, lens, limit)
  {
    hide Space, Total, CountsOf, MergedLengths, StablySorted, Folded, Repaired, LimitedCounts;
    syms, order := SortAndMeasure(n, syms0, syms1, passes, modulus);
    lens := Keys(syms[..n]);
    LongestFirst(Keys(order), modulus, lens);
    fits, c := CountLengths(syms, n);
    if !fits { return; }
    ghost var before := c[..];
    if n == 0 {
      NoCounts(before, limit);
      return;
    }
    ReadyToLimit(before, Keys(order), modulus, lens);
    EnforceMaxCodeSize(c, n, limit);
    if n == 1 { OneLength(Keys(order), modulus, lens); }
    LimitingKeeps(before, c[..], n, lens, limit);
  }

  lemma OneLength(w: seq<nat>, modulus: nat, lens: seq<nat>)
    requires |w| == 1 && MergedLengths(w, modulus, lens)
    ensures lens == [1]
  {
  }

  lemma {:induction false} NoCounts(c: seq<int>, limit: nat)
    requires |c| == MAX_HUFF_CODESIZE + 1 && CountsOf(c, []) && 1 <= limit <= 16
    ensures LimitedCounts(c, 0, [], limit)
  {
    EmptyTotal(c, limit);
  }

  lemma {:induction false} LimitingKeeps(before: seq<int>, after: seq<int>, n: nat, lens: seq<nat>, limit: nat)
    requires Counts(before) && CountsOf(before, lens) && Counts(after) && |lens| == n >= 1 && 1 <= limit <= 16
    requires forall i :: 0 <= i < n ==> 1 <= lens[i] <= lens[0]
    requires n == 1 ==> lens == [1] && after == before
    requires n > 1 ==> Space(before, 32, 32) == TWO_TO_32
    requires n > 1 ==> Total(after, limit) == n && Space(after, limit, limit) == Pow2(limit)
    requires n > 1 ==>
      var folded := Folded(before, limit);
      Space(folded, limit, limit) >= Pow2(limit) &&
      after == Repaired(folded, limit, Space(folded, limit, limit) - Pow2(limit))
    ensures LimitedCounts(after, n, lens, limit)
  {
    if n == 1 {
      TotalOfCounts(before, lens, limit);
      assert CountOf([1], 1) == 1;
    } else {
      assert LimitsTo(before, lens, limit, after);
      if lens[0] <= limit { NothingToLimit(before, lens, limit); }
    }
  }

  // ----- records for the symbols that occur

  /** Records for the symbols among the first k that occur; symbol i gets index i + shift. */
  function Gathered(count: seq<nat>, k: nat, shift: nat): (r: seq<SymFreq>)
    requires k <= |count|
    ensures |r| <= k
  {
    if k == 0 then []
    else Gathered(count, k - 1, shift) + if count[k - 1] > 0 then [SymFreq(count[k - 1], k - 1 + shift)] else []
  }

  lemma {:induction false} GatheredMember(count: seq<nat>, k: nat, shift: nat, x: SymFreq)
    requires k <= |count|
    ensures x in Gathered(count, k, shift) <==>
      shift <= x.symIndex < k + shift && count[x.symIndex - shift] > 0 && x.key == count[x.symIndex - shift]
  {
    if k > 0 { GatheredMember(count, k - 1, shift, x); }
  }

  ghost predicate SymbolsAscend(s: seq<SymFreq>) {
    forall i, j :: 0 <= i < j < |s| ==> s[i].symIndex < s[j].symIndex
  }

  /** Records appear in ascending order of symbol, so no two are for the same symbol. */
  lemma {:induction false} GatheredAscends(count: seq<nat>, k: nat, shift: nat)
    requires k <= |count|
    ensures SymbolsAscend(Gathered(count, k, shift))
  {
    if k > 0 {
      GatheredAscends(count, k - 1, shift);
      var g := Gathered(count, k - 1, shift);
      forall i | 0 <= i < |g| ensures g[i].symIndex < k - 1 + shift {
        assert g[i] in g;
        GatheredMember(count, k - 1, shift, g[i]);
      }
      if count[k - 1] == 0 {
        assert Gathered(count, k, shift) == g;
      }
    }
  }

  lemma GatheredStep(count: seq<nat>, k: nat, shift: nat)
    requires 0 < k <= |count|
    ensures Gathered(count, k, shift) ==
      if count[k - 1] > 0 then Gathered(count, k - 1, shift) + [SymFreq(count[k - 1], k - 1 + shift)]
      else Gathered(count, k - 1, shift)
  {
  }

  lemma KeysSnoc(s: seq<SymFreq>, x: SymFreq)
    ensures Keys(s + [x]) == Keys(s) + [x.key]
  {
  }

  lemma {:induction false} GatheredSum(count: seq<nat>, k: nat, shift: nat)
    requires k <= |count|
    ensures Sum(Keys(Gathered(count, k, shift))) == Sum(count[..k])
  {
    hide Sum, Gathered, Keys;
    if k > 0 {
      var g := Gathered(count, k - 1, shift);
      GatheredSum(count, k - 1, shift);
      SumTake(count, k - 1);
      GatheredStep(count, k, shift);
      KeysSnoc(g, SymFreq(count[k - 1], k - 1 + shift));
      SumSnoc(Keys(g), count[k - 1]);
    } else {
      NoSum(count, shift);
    }
  }

  lemma NoSum(count: seq<nat>, shift: nat)
    ensures Sum(Keys(Gathered(count, 0, shift))) == 0 == Sum(count[..0])
  {
  }

  // ----- giving out lengths, longest to the rarest

  /** k repeated m times. */
  function Repeat(k: nat, m: nat): (r: seq<nat>)
    ensures |r| == m && forall i :: 0 <= i < m ==> r[i] == k
  {
    seq(m, _ => k)
  }

  /** The lengths counted by c, from k bits down to one. */
  function LongestDown(c: seq<int>, k: nat): (r: seq<nat>)
    requires Counts(c) && k < |c|
    ensures |r| == Total(c, k)
    ensures forall i :: 0 <= i < |r| ==> 1 <= r[i] <= k
  {
    if k == 0 then [] else Repeat(k, c[k]) + LongestDown(c, k - 1)
  }

  lemma {:induction false} CountAppend(a: seq<nat>, b: seq<nat>, len: nat)
    ensures CountOf(a + b, len) == CountOf(a, len) + CountOf(b, len)
  {
    if b == [] {
      assert a + b == a;
    } else {
      assert (a + b)[..|a + b| - 1] == a + b[..|b| - 1];
      CountAppend(a, b[..|b| - 1], len);
    }
  }

  lemma {:induction false} CountRepeat(k: nat, m: nat, len: nat)
    ensures CountOf(Repeat(k, m), len) == if k == len then m else 0
  {
    if m > 0 {
      CountRepeat(k, m - 1, len);
      assert Repeat(k, m)[..m - 1] == Repeat(k, m - 1);
    }
  }

  lemma {:induction false} CountLongestDown(c: seq<int>, k: nat, len: nat)
    requires Counts(c) && k < |c|
    ensures CountOf(LongestDown(c, k), len) == if 1 <= len <= k then c[len] else 0
  {
    if k > 0 {
      CountLongestDown(c, k - 1, len);
      CountRepeat(k, c[k], len);
      CountAppend(Repeat(k, c[k]), LongestDown(c, k - 1), len);
    }
  }

  lemma {:induction false} LongestDownDescends(c: seq<int>, k: nat)
    requires Counts(c) && k < |c|
    ensures Descending(LongestDown(c, k))
  {
    if k > 0 { LongestDownDescends(c, k - 1); }
  }

  lemma {:induction false} CountNone(s: seq<nat>, len: nat)
    requires forall i :: 0 <= i < |s| ==> s[i] != len
    ensures CountOf(s, len) == 0
  {
    if s != [] { CountNone(s[..|s| - 1], len); }
  }

  /** Descending lengths are determined by how often each occurs. */
  lemma {:induction false} DescendingDetermined(a: seq<nat>, b: seq<nat>)
    requires Descending(a) && Descending(b) && |a| == |b|
    requires forall len :: CountOf(a, len) == CountOf(b, len)
    ensures a == b
  {
    if a != [] {
      var x, y := a[|a| - 1], b[|b| - 1];
      assert CountOf(a, x) >= 1 && CountOf(b, y) >= 1;
      if x < y { CountNone(b, x); }
      if y < x { CountNone(a, y); }
      var a0, b0 := a[..|a| - 1], b[..|b| - 1];
      forall len ensures CountOf(a0, len) == CountOf(b0, len) {
        assert CountOf(a, len) == CountOf(b, len);
      }
      DescendingDetermined(a0, b0);
      assert a == a0 + [x] && b == b0 + [y];
    }
  }

  /** If no length is over the limit, lengths are given out exactly as measured. */
  lemma {:induction false} LongestDownIsMeasured(c: seq<int>, lens: seq<nat>, limit: nat)
    requires Counts(c) && limit < |c| && CountsOf(c, lens) && Descending(lens) && |lens| == Total(c, limit)
    requires forall i :: 0 <= i < |lens| ==> 1 <= lens[i] <= limit
    ensures LongestDown(c, limit) == lens
  {
    LongestDownDescends(c, limit);
    forall len: nat ensures CountOf(LongestDown(c, limit), len) == CountOf(lens, len) {
      CountLongestDown(c, limit, len);
      if len == 0 || len > limit { CountNone(lens, len); }
    }
    DescendingDetermined(LongestDown(c, limit), lens);
  }

  /** A length vector with the counts c has the code space of c. */
  lemma {:induction false} PastIsSpace(sizes: seq<nat>, c: seq<int>, len: nat)
    requires 1 <= len < |c| && forall l :: 1 <= l <= len ==> CountOf(sizes, l) == c[l]
    ensures Past(sizes, len) == Space(c, len, len)
  {
    if len > 1 {
      PastIsSpace(sizes, c, len - 1);
      SpaceScales(c, len - 1, len - 1, 1);
      assert Pow2(1) == 2 && Pow2(0) == 1;
    } else {
      assert Pow2(0) == 1;
    }
  }
}
