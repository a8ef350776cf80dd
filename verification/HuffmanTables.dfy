/** The compressor's Huffman table builder: limited code lengths and bit-reversed canonical codes
    for one alphabet. */
module HuffmanTables {
  import opened Arithmetic
  import opened HuffmanCost
  import opened SymbolCounts
  import opened RadixSort
  import opened MergeWeights
  import opened MinimumRedundancy
  import opened LengthLimit
  import opened PrefixCodes
  import opened CanonicalCodes
  import opened CodeLengths

  // ----- giving lengths to symbols

  lemma {:induction false} CountUpdate(s: seq<nat>, k: nat, v: nat, len: nat)
    requires k < |s|
    ensures CountOf(s[k := v], len) ==
      CountOf(s, len) - (if s[k] == len then 1 else 0) + (if v == len then 1 else 0)
  {
    var last := |s| - 1;
    if k == last {
      assert s[k := v][..last] == s[..last];
    } else {
      CountUpdate(s[..last], k, v, len);
      assert s[k := v][..last] == s[..last][k := v];
    }
  }

  /** Records from position j on have got the lengths a; no other symbol has one. */
  ghost predicate GivenOut(sizes: seq<nat>, order: seq<SymFreq>, j: nat, a: seq<nat>) {
    && j + |a| == |order|
    && (forall k :: j <= k < |order| ==> HasSize(sizes, order, j, a, k))
    && (forall sym :: 0 <= sym < |sizes| && sizes[sym] != 0 ==> exists k :: j <= k < |order| && order[k].symIndex == sym)
    && (forall len :: len >= 1 ==> CountOf(sizes, len) == CountOf(a, len))
  }

  ghost predicate HasSize(sizes: seq<nat>, order: seq<SymFreq>, j: nat, a: seq<nat>, k: nat)
    requires j <= k < |order| && j + |a| == |order|
  {
    order[k].symIndex < |sizes| && sizes[order[k].symIndex] == a[k - j]
  }

  ghost predicate DistinctSymbols(order: seq<SymFreq>) {
    forall i, j :: 0 <= i < j < |order| ==> order[i].symIndex != order[j].symIndex
  }

  lemma {:induction false} GiveOne(sizes: seq<nat>, order: seq<SymFreq>, j: nat, a: seq<nat>, size: nat)
    requires 0 < j <= |order| && GivenOut(sizes, order, j, a) && DistinctSymbols(order)
    requires order[j - 1].symIndex < |sizes| && size >= 1
    ensures GivenOut(sizes[order[j - 1].symIndex := size], order, j - 1, [size] + a)
  {
    var sym := order[j - 1].symIndex;
    var sizes', a' := sizes[sym := size], [size] + a;
    assert sizes[sym] == 0;
    var i := j - 1;
    forall k | i <= k < |order| ensures HasSize(sizes', order, i, a', k) {
      if k >= j { assert HasSize(sizes, order, j, a, k); }
    }
    forall len | len >= 1 ensures CountOf(sizes', len) == CountOf(a', len) {
      CountUpdate(sizes, sym, size, len);
      CountAppend([size], a, len);
      assert CountOf([size], len) == if size == len then 1 else 0;
    }
    forall s | 0 <= s < |sizes'| && sizes'[s] != 0 ensures exists k :: j - 1 <= k < |order| && order[k].symIndex == s {
      if s != sym {
        var k :| j <= k < |order| && order[k].symIndex == s;
      } else {
        assert order[j - 1].symIndex == s;
      }
    }
  }

  lemma NoneGiven(sizes: seq<nat>, order: seq<SymFreq>)
    requires forall sym :: 0 <= sym < |sizes| ==> sizes[sym] == 0
    ensures GivenOut(sizes, order, |order|, [])
  {
    forall len | len >= 1 ensures CountOf(sizes, len) == CountOf([], len) { CountNone(sizes, len); }
  }

  lemma RepeatMore(k: nat, m: nat, rest: seq<nat>)
    ensures [k] + (Repeat(k, m) + rest) == Repeat(k, m + 1) + rest
    ensures Repeat(k, 0) + rest == rest
  {
  }

  /** Gives `size` to the `count` records before position j. */
  method GiveSize(syms: array<SymFreq>, j: nat, size: nat, count: nat, sizes: array<nat>,
                  ghost order: seq<SymFreq>, ghost a: seq<nat>) returns (j': nat)
    requires count <= j <= |order| <= syms.Length && size >= 1 && DistinctSymbols(order)
    requires forall i :: 0 <= i < |order| ==> syms[i].symIndex == order[i].symIndex < sizes.Length
    requires GivenOut(sizes[..], order, j, a)
    modifies sizes
    ensures j' == j - count
    ensures GivenOut(sizes[..], order, j', Repeat(size, count) + a)
  {
    hide GivenOut, DistinctSymbols, Repeat;
    var l := count;
    j' := j;
    RepeatMore(size, 0, a);
    while l > 0
      invariant 0 <= l <= count && j' == j - (count - l)
      invariant GivenOut(sizes[..], order, j', Repeat(size, count - l) + a)
    {
      j' := j' - 1;
      GiveOne(sizes[..], order, j' + 1, Repeat(size, count - l) + a, size);
      RepeatMore(size, count - l, a);
      sizes[syms[j'].symIndex] := size;
      l := l - 1;
    }
  }

  /** Shortest codes to the most frequent symbols, which come last. */
  method GiveSizes(syms: array<SymFreq>, n: nat, c: array<int>, limit: nat, sizes: array<nat>, ghost order: seq<SymFreq>)
    requires n <= syms.Length && |order| == n && DistinctSymbols(order)
    requires forall i :: 0 <= i < n ==> syms[i].symIndex == order[i].symIndex < sizes.Length
    requires Counts(c[..]) && limit < c.Length && Total(c[..], limit) == n
    requires forall i :: 0 <= i < sizes.Length ==> sizes[i] == 0
    modifies sizes
    ensures GivenOut(sizes[..], order, 0, LongestDown(c[..], limit))
  {
    NoneGiven(sizes[..], order);
    hide GivenOut, DistinctSymbols, Repeat;
    ghost var counts := c[..];
    var j := n;
    for i := 1 to limit + 1
      invariant c[..] == counts && 0 <= j && j + Total(counts, i - 1) == n
      invariant GivenOut(sizes[..], order, j, LongestDown(counts, i - 1))
    {
      TotalGrows(counts, i, limit);
      j := GiveSize(syms, j, i, c[i], sizes, order, LongestDown(counts, i - 1));
    }
  }

  // ----- bit-reversed codes

  method ReverseBits(code: nat, len: nat) returns (rev: nat)
    ensures rev == Reversed(Bits(code, len))
  {
    ghost var word := Bits(code, len);
    var rest := code;
    var l := len;
    rev := 0;
    while l > 0
      invariant 0 <= l <= len
      invariant word[..l] == Bits(rest, l) && rev == Reversed(word[l..])
    {
      assert word[..l][..l - 1] == word[..l - 1];
      assert word[l - 1] == word[..l][l - 1];
      assert word[l - 1..] == [word[l - 1]] + word[l..];
      rev := 2 * rev + rest % 2;
      rest := rest / 2;
      l := l - 1;
    }
  }

  lemma FirstOfOne(sizes: seq<nat>)
    ensures First(sizes, 1) == 0
  {
  }

  lemma FirstFromCount(sizes: seq<nat>, len: nat)
    requires len >= 2
    ensures First(sizes, len) == 2 * (First(sizes, len - 1) + CountOf(sizes, len - 1))
  {
  }

  /** Where the codes of each length start. */
  method FirstCodes(c: array<int>, limit: nat, ghost sizes: seq<nat>) returns (next: array<nat>)
    requires 1 <= limit < c.Length
    requires forall l :: 1 <= l <= limit ==> c[l] == CountOf(sizes, l)
    ensures fresh(next) && next.Length == c.Length
    ensures forall l :: 1 <= l <= limit ==> next[l] == First(sizes, l)
  {
    hide First, Past, CountOf;
    next := new nat[c.Length](_ => 0);
    var j := 0;
    FirstOfOne(sizes);
    for i := 2 to limit + 1
      invariant j == First(sizes, i - 1)
      invariant forall l :: 1 <= l < i ==> next[l] == First(sizes, l)
    {
      FirstFromCount(sizes, i);
      j := 2 * (j + c[i - 1]);
      next[i] := j;
    }
  }

  /** The bit-reversed code word of every used symbol among the first k. */
  ghost predicate Coded(codes: seq<nat>, sizes: seq<nat>, k: nat) {
    k <= |sizes| && k <= |codes| &&
    forall i :: 0 <= i < k && sizes[i] > 0 ==> codes[i] == Reversed(CodeWord(sizes, i))
  }

  /** Codes still to be given out for each length before symbol k. */
  ghost predicate NextCodes(next: seq<nat>, sizes: seq<nat>, limit: nat, k: nat) {
    k <= |sizes| && limit < |next| &&
    forall l :: 1 <= l <= limit ==> next[l] == First(sizes, l) + CountOf(sizes[..k], l)
  }

  lemma {:induction false} NextCodesStep(next: seq<nat>, sizes: seq<nat>, limit: nat, k: nat, next': seq<nat>)
    requires NextCodes(next, sizes, limit, k) && k < |sizes| && sizes[k] <= limit
    requires next' == if sizes[k] == 0 then next else next[sizes[k] := next[sizes[k]] + 1]
    ensures NextCodes(next', sizes, limit, k + 1)
    ensures sizes[k] > 0 ==> next[sizes[k]] == Code(sizes, k)
  {
    forall l | 1 <= l <= limit ensures next'[l] == First(sizes, l) + CountOf(sizes[..k + 1], l) {
      CountOfPrefix(sizes, k, l);
    }
  }

  lemma {:induction false} NextCodesStart(next: seq<nat>, sizes: seq<nat>, limit: nat)
    requires limit < |next| && forall l :: 1 <= l <= limit ==> next[l] == First(sizes, l)
    ensures NextCodes(next, sizes, limit, 0)
  {
    assert sizes[..0] == [];
  }

  method AssignCodes(sizes: array<nat>, codes: array<nat>, tableLen: nat, c: array<int>, limit: nat)
    requires tableLen <= sizes.Length && tableLen <= codes.Length && sizes != codes
    requires 1 <= limit < c.Length
    requires forall i :: 0 <= i < tableLen ==> sizes[i] <= limit
    requires forall l :: 1 <= l <= limit ==> c[l] == CountOf(sizes[..tableLen], l)
    modifies codes
    ensures Coded(codes[..], sizes[..tableLen], tableLen)
  {
    hide NextCodes, First, CountOf, Reversed, Bits, Code;
    ghost var s := sizes[..tableLen];
    var next := FirstCodes(c, limit, s);
    NextCodesStart(next[..], s, limit);
    for i := 0 to tableLen
      invariant sizes[..tableLen] == s && next.Length == c.Length
      invariant NextCodes(next[..], s, limit, i)
      invariant Coded(codes[..], s, i)
    {
      var codeSize := sizes[i];
      ghost var before := next[..];
      if codeSize != 0 {
        var code := next[codeSize];
        next[codeSize] := code + 1;
        NextCodesStep(before, s, limit, i, next[..]);
        codes[i] := ReverseBits(code, codeSize);
      } else {
        NextCodesStep(before, s, limit, i, next[..]);
      }
    }
  }

  // ----- the table of one alphabet

  /** Counts the lengths of a given table. */
  method CountSizes(sizes: array<nat>, tableLen: nat) returns (c: array<int>)
    requires tableLen <= sizes.Length && forall i :: 0 <= i < tableLen ==> sizes[i] <= MAX_HUFF_CODESIZE
    ensures fresh(c) && c.Length == MAX_HUFF_CODESIZE + 1
    ensures CountsOf(c[..], sizes[..tableLen])
  {
    c := new int[MAX_HUFF_CODESIZE + 1](_ => 0);
    for i := 0 to tableLen
      invariant CountsOf(c[..], sizes[..i])
    {
      CountsSnoc(c[..], sizes[..i], sizes[i]);
      assert sizes[..i + 1] == sizes[..i] + [sizes[i]];
      c[sizes[i]] := c[sizes[i]] + 1;
    }
  }

  method GatherUsed(count: array<nat>, tableLen: nat, syms0: array<SymFreq>) returns (n: nat)
    requires tableLen <= count.Length && tableLen <= syms0.Length
    modifies syms0
    ensures n <= tableLen && syms0[..n] == Gathered(count[..], tableLen, 0)
  {
    n := 0;
    for i := 0 to tableLen
      invariant n <= i && syms0[..n] == Gathered(count[..], i, 0)
    {
      if count[i] != 0 {
        syms0[n] := SymFreq(count[i], i);
        n := n + 1;
      }
    }
  }

  /** The fixed tables: code lengths are given, only codes are computed. */
  method FixedTable(sizes: array<nat>, codes: array<nat>, tableLen: nat, limit: nat)
    requires tableLen <= sizes.Length && tableLen <= codes.Length && sizes != codes
    requires 1 <= limit <= 15 && forall i :: 0 <= i < tableLen ==> sizes[i] <= limit
    modifies codes
    ensures Coded(codes[..], sizes[..tableLen], tableLen)
  {
    var c := CountSizes(sizes, tableLen);
    AssignCodes(sizes, codes, tableLen, c, limit);
  }

  /** What the table builder promises about the lengths it gives out. */
  ghost predicate GoodSizes(count: seq<nat>, sizes: seq<nat>, limit: nat) {
    && |sizes| == |count|
    && (forall i :: 0 <= i < |count| ==> (sizes[i] > 0 <==> count[i] > 0) && sizes[i] <= limit)
    && (forall i, j :: 0 <= i < |count| && 0 <= j < |count| && count[i] > count[j] > 0 ==> sizes[i] <= sizes[j])
    && limit >= 1 && Fits(sizes, limit)
    && ((exists i, j :: 0 <= i < j < |count| && count[i] > 0 && count[j] > 0) ==> Complete(sizes, limit))
  }

  /** `order` are the symbols that occur, rarest first. */
  ghost predicate Ordered(count: seq<nat>, order: seq<SymFreq>) {
    StablySorted(Gathered(count, |count|, 0), order)
  }

  lemma {:induction false} OrderMember(count: seq<nat>, order: seq<SymFreq>, x: SymFreq)
    requires Ordered(count, order)
    ensures x in order <==> x.symIndex < |count| && count[x.symIndex] > 0 && x.key == count[x.symIndex]
  {
    var g := Gathered(count, |count|, 0);
    SameOrderIsPermutation(g, order);
    GatheredMember(count, |count|, 0, x);
    assert x in order <==> x in multiset(order);
    assert x in g <==> x in multiset(g);
  }

  lemma {:induction false} OrderAt(count: seq<nat>, order: seq<SymFreq>, k: nat)
    requires Ordered(count, order) && k < |order|
    ensures order[k].symIndex < |count| && order[k].key == count[order[k].symIndex] > 0
  {
    OrderMember(count, order, order[k]);
  }

  lemma {:induction false} OrderFind(count: seq<nat>, order: seq<SymFreq>, sym: nat) returns (k: nat)
    requires Ordered(count, order) && sym < |count| && count[sym] > 0
    ensures k < |order| && order[k] == SymFreq(count[sym], sym)
  {
    OrderMember(count, order, SymFreq(count[sym], sym));
    k :| 0 <= k < |order| && order[k] == SymFreq(count[sym], sym);
  }

  lemma {:induction false} OrderDistinct(count: seq<nat>, order: seq<SymFreq>)
    requires Ordered(count, order)
    ensures DistinctSymbols(order)
  {
    var g := Gathered(count, |count|, 0);
    GatheredAscends(count, |count|, 0);
    SameOrderIsPermutation(g, order);
    DistinctPermutation(g, order);
    forall i, j | 0 <= i < j < |order| ensures order[i].symIndex != order[j].symIndex {
      OrderAt(count, order, i);
      OrderAt(count, order, j);
      assert order[i] != order[j];
    }
  }

  /** Sizes given out along `order`, a descending list a. */
  lemma {:induction false} SizesFollowCounts(count: seq<nat>, order: seq<SymFreq>, sizes: seq<nat>, a: seq<nat>, limit: nat)
    requires Ordered(count, order) && |sizes| == |count| && GivenOut(sizes, order, 0, a)
    requires Descending(a) && forall i :: 0 <= i < |a| ==> 1 <= a[i] <= limit
    ensures forall i :: 0 <= i < |count| ==> (sizes[i] > 0 <==> count[i] > 0) && sizes[i] <= limit
    ensures forall i, j :: 0 <= i < |count| && 0 <= j < |count| && count[i] > count[j] > 0 ==> sizes[i] <= sizes[j]
  {
    hide Ordered, CountOf;
    forall i | 0 <= i < |count| ensures (sizes[i] > 0 <==> count[i] > 0) && sizes[i] <= limit {
      if sizes[i] > 0 {
        var k :| 0 <= k < |order| && order[k].symIndex == i;
        OrderAt(count, order, k);
        assert HasSize(sizes, order, 0, a, k);
      }
      if count[i] > 0 {
        var k := OrderFind(count, order, i);
        assert HasSize(sizes, order, 0, a, k);
      }
    }
    forall i, j | 0 <= i < |count| && 0 <= j < |count| && count[i] > count[j] > 0 ensures sizes[i] <= sizes[j] {
      var k := OrderFind(count, order, i);
      var l := OrderFind(count, order, j);
      OrderSorted(count, order, l, k);
      assert HasSize(sizes, order, 0, a, k) && HasSize(sizes, order, 0, a, l);
    }
  }

  lemma {:induction false} OrderSorted(count: seq<nat>, order: seq<SymFreq>, l: nat, k: nat)
    requires Ordered(count, order) && l < |order| && k < |order| && order[l].key < order[k].key
    ensures l < k
  {
  }

  lemma {:induction false} FewCodesFit(c: seq<int>, limit: nat)
    requires Counts(c) && 1 <= limit <= 16 && Total(c, limit) <= 1 && (Total(c, limit) == 1 ==> c[1] == 1)
    ensures Space(c, limit, limit) <= Pow2(limit)
  {
    var d := c[1 := 0];
    TotalGrows(c, limit, limit);
    if Total(c, limit) == 1 {
      TotalUpdate(c, limit, 1, 0);
      SpaceUpdate(c, limit, limit, 1, 0);
      NoSpace(d, limit, limit);
      Pow2Monotone(limit - 1, limit);
    } else {
      NoSpace(c, limit, limit);
    }
  }

  lemma {:induction false} NoSpace(c: seq<int>, k: nat, m: nat)
    requires Counts(c) && k < |c| && k <= m && Total(c, k) == 0
    ensures Space(c, k, m) == 0
  {
    if k > 0 {
      TotalGrows(c, k - 1, k);
      NoSpace(c, k - 1, m);
    }
  }

  lemma {:induction false} SizesFillSpace(sizes: seq<nat>, a: seq<nat>, c: seq<int>, n: nat, lens: seq<nat>, limit: nat)
    requires LimitedCounts(c, n, lens, limit) && a == LongestDown(c, limit)
    requires forall len :: len >= 1 ==> CountOf(sizes, len) == CountOf(a, len)
    requires forall i :: 0 <= i < |sizes| ==> sizes[i] <= limit
    ensures forall l :: 1 <= l <= limit ==> c[l] == CountOf(sizes, l)
    ensures Fits(sizes, limit) && (n >= 2 ==> Complete(sizes, limit))
  {
    forall l | 1 <= l <= limit ensures c[l] == CountOf(sizes, l) {
      CountLongestDown(c, limit, l);
    }
    PastIsSpace(sizes, c, limit);
    if n <= 1 { FewCodesFit(c, limit); }
  }

  lemma {:induction false} TwoUsed(count: seq<nat>, order: seq<SymFreq>)
    requires Ordered(count, order)
    ensures (exists i, j :: 0 <= i < j < |count| && count[i] > 0 && count[j] > 0) ==> |order| >= 2
  {
    if i, j :| 0 <= i < j < |count| && count[i] > 0 && count[j] > 0 {
      var k := OrderFind(count, order, i);
      var l := OrderFind(count, order, j);
      assert k != l;
    }
  }

  lemma {:induction false} TableIsGood(count: seq<nat>, order: seq<SymFreq>, sizes: seq<nat>, c: seq<int>, lens: seq<nat>, limit: nat)
    requires Ordered(count, order) && |sizes| == |count|
    requires LimitedCounts(c, |order|, lens, limit) && GivenOut(sizes, order, 0, LongestDown(c, limit))
    ensures GoodSizes(count, sizes, limit)
    ensures forall l :: 1 <= l <= limit ==> c[l] == CountOf(sizes, l)
  {
    LongestDownDescends(c, limit);
    hide Ordered, CountOf, LongestDown, Total, Space;
    SizesFollowCounts(count, order, sizes, LongestDown(c, limit), limit);
    SizesFillSpace(sizes, LongestDown(c, limit), c, |order|, lens, limit);
    TwoUsed(count, order);
  }

  /** The sizes along `order` are the measured lengths whenever those respect the limit. */
  ghost predicate MeasuredSizes(order: seq<SymFreq>, lens: seq<nat>, sizes: seq<nat>, limit: nat) {
    |lens| == |order| && (lens != [] && lens[0] <= limit ==> forall k :: 0 <= k < |order| ==> HasSize(sizes, order, 0, lens, k))
  }

  lemma {:induction false} SizesAreMeasured(order: seq<SymFreq>, sizes: seq<nat>, c: seq<int>, lens: seq<nat>, limit: nat, modulus: nat)
    requires LimitedCounts(c, |order|, lens, limit) && GivenOut(sizes, order, 0, LongestDown(c, limit))
    requires MergedLengths(Keys(order), modulus, lens)
    ensures MeasuredSizes(order, lens, sizes, limit)
  {
    if lens != [] && lens[0] <= limit {
      if |lens| >= 2 { MergedIsComplete(Keys(order), modulus, lens, limit); }
      LongestDownIsMeasured(c, lens, limit);
    }
  }

  /** The sizes along `order` are the measured lengths, limited. */
  ghost predicate LimitedSizes(order: seq<SymFreq>, lens: seq<nat>, sizes: seq<nat>, limit: nat) {
    exists c :: LimitedCounts(c, |order|, lens, limit) && GivenOut(sizes, order, 0, LongestDown(c, limit))
  }

  lemma SizesAreLimited(order: seq<SymFreq>, sizes: seq<nat>, c: seq<int>, lens: seq<nat>, limit: nat)
    requires LimitedCounts(c, |order|, lens, limit) && GivenOut(sizes, order, 0, LongestDown(c, limit))
    ensures LimitedSizes(order, lens, sizes, limit)
  {
    hide LimitedCounts, GivenOut, LongestDown;
  }

  lemma {:induction false} ReadyToSort(count: seq<nat>)
    requires Sum(count) < 65536
    ensures var g := Gathered(count, |count|, 0);
      Shallow(g, 65536) && forall i :: 0 <= i < |g| ==> g[i].key < 65536
  {
    var g := Gathered(count, |count|, 0);
    GatheredSum(count, |count|, 0);
    assert count[..|count|] == count;
    forall i | 0 <= i < |g| ensures 0 < g[i].key < 65536 {
      assert g[i] in g;
      GatheredMember(count, |count|, 0, g[i]);
      SumPart(count, g[i].symIndex);
    }
    SmallTotalsAreShallow(g, 65536);
  }

  lemma SixteenBits(limit: nat)
    requires limit <= 15
    ensures Pow2(limit) <= 65536 == Pow256(2)
  {
    Pow2Monotone(limit, 15);
    Pow2Monotone(15, 16);
    Pow32();
    assert Pow256(1) == 256;
  }

  /** Collects, sorts and measures the symbols that occur. */
  method MeasureSymbols(count: array<nat>, tableLen: nat, limit: nat)
      returns (n: nat, syms: array<SymFreq>, c: array<int>, ghost order: seq<SymFreq>, ghost lens: seq<nat>)
    requires tableLen == count.Length && Sum(count[..]) < 65536
    requires 1 <= limit <= 15 && tableLen <= Pow2(limit)
    ensures fresh(syms) && fresh(c) && n <= syms.Length && c.Length == MAX_HUFF_CODESIZE + 1
    ensures Ordered(count[..], order) && |order| == n
    ensures forall i :: 0 <= i < n ==> syms[i].symIndex == order[i].symIndex
    ensures MergedLengths(Keys(order), 65536, lens)
    ensures LimitedCounts(c[..], n, lens, limit)
  {
    hide Sum, Shallow, Gathered, Pow2, Pow256, StablySorted, MergedLengths, LimitedCounts;
    ReadyToSort(count[..]);
    SixteenBits(limit);
    var syms0, syms1 := new SymFreq[tableLen], new SymFreq[tableLen];
    n := GatherUsed(count, tableLen, syms0);
    var fits;
    fits, syms, c, order, lens := LimitedLengthCounts(n, syms0, syms1, 2, 65536, limit);
    ShallowFits(Gathered(count[..], tableLen, 0), order, 65536, lens);
  }

  /** Computes code lengths of at most `limit` bits and codes for the symbols that occur. */
  method OptimizeTable(count: array<nat>, sizes: array<nat>, codes: array<nat>, tableLen: nat, limit: nat)
      returns (ghost order: seq<SymFreq>, ghost lens: seq<nat>)
    requires count != sizes && count != codes && sizes != codes
    requires tableLen == count.Length == sizes.Length == codes.Length
    requires Sum(count[..]) < 65536
    requires 1 <= limit <= 15 && tableLen <= Pow2(limit)
    modifies sizes, codes
    ensures GoodSizes(count[..], sizes[..], limit)
    ensures Coded(codes[..], sizes[..], tableLen)
    ensures Ordered(count[..], order) && MergedLengths(Keys(order), 65536, lens)
    ensures MeasuredSizes(order, lens, sizes[..], limit) && LimitedSizes(order, lens, sizes[..], limit)
  {
    hide Sum, Pow2, Ordered, MergedLengths, LimitedCounts, GivenOut, GoodSizes, DistinctSymbols, LongestDown, MeasuredSizes,
      LimitedSizes, Coded;
    ghost var counts := count[..];
    var n, syms, c;
    n, syms, c, order, lens := MeasureSymbols(count, tableLen, limit);
    OrderDistinct(counts, order);
    InRange(counts, order);
    ghost var cs := c[..];
    CountsReady(cs, n, lens, limit);
    for i := 0 to tableLen
      modifies sizes
      invariant forall k :: 0 <= k < i ==> sizes[k] == 0
    {
      sizes[i] := 0;
    }
    assert c[..] == cs;
    GiveSizes(syms, n, c, limit, sizes, order);
    TableIsGood(counts, order, sizes[..], cs, lens, limit);
    SizesAreMeasured(order, sizes[..], cs, lens, limit, 65536);
    SizesAreLimited(order, sizes[..], cs, lens, limit);
    assert c[..] == cs;
    SizesInLimit(counts, sizes[..], limit);
    assert sizes[..tableLen] == sizes[..];
    AssignCodes(sizes, codes, tableLen, c, limit);
  }

  lemma InRange(count: seq<nat>, order: seq<SymFreq>)
    requires Ordered(count, order)
    ensures forall k :: 0 <= k < |order| ==> order[k].symIndex < |count|
  {
    forall k | 0 <= k < |order| ensures order[k].symIndex < |count| { OrderAt(count, order, k); }
  }

  lemma CountsReady(c: seq<int>, n: nat, lens: seq<nat>, limit: nat)
    requires LimitedCounts(c, n, lens, limit)
    ensures Counts(c) && Total(c, limit) == n
  {
  }

  lemma SizesInLimit(count: seq<nat>, sizes: seq<nat>, limit: nat)
    requires GoodSizes(count, sizes, limit)
    ensures forall i :: 0 <= i < |sizes| ==> sizes[i] <= limit
  {
  }
}
