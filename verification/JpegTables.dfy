/** The JPEG encoder's Huffman table optimiser. A dummy symbol takes the all-ones code and is
    then removed, as Annex C of ITU-T T.81 asks for tables without an all-ones code. */
module JpegTables {
  import opened Arithmetic
  import opened SymbolCounts
  import opened RadixSort
  import opened MergeWeights
  import opened MinimumRedundancy
  import opened LengthLimit
  import opened PrefixCodes
  import opened CanonicalCodes
  import opened CodeLengths
  import opened MergeDetermined

  const LIMIT: nat := 16
  const DUMMY: SymFreq := SymFreq(1, 0)

  // ----- the dummy is the rarest symbol

  /** The records to sort: the dummy first, then symbol i under index i + 1. */
  function WithDummy(count: seq<nat>): (r: seq<SymFreq>)
  {
    [DUMMY] + Gathered(count, |count|, 1)
  }

  ghost predicate Ordered(count: seq<nat>, order: seq<SymFreq>) {
    StablySorted(WithDummy(count), order)
  }

  lemma {:induction false} FirstWithKey(s: seq<SymFreq>)
    requires s != []
    ensures WithKey(s, s[0].key) != [] && WithKey(s, s[0].key)[0] == s[0]
  {
    if |s| == 1 {
      assert s[..0] == [];
    } else {
      FirstWithKey(s[..|s| - 1]);
    }
  }

  /** Sorting is stable and no count is below one, so the dummy stays in front. */
  lemma {:induction false} DummyIsFirst(count: seq<nat>, order: seq<SymFreq>)
    requires Ordered(count, order)
    ensures order != [] && order[0] == DUMMY
  {
    var g := WithDummy(count);
    SameOrderIsPermutation(g, order);
    assert DUMMY in multiset(g);
    assert DUMMY in order;
    var k :| 0 <= k < |order| && order[k] == DUMMY;
    assert order[0] in multiset(order);
    assert order[0] in g;
    RecordsPositive(count, order[0]);
    assert order[0].key <= order[k].key;
    FirstWithKey(g);
    FirstWithKey(order);
    assert WithKey(g, 1) == WithKey(order, 1);
  }

  lemma RecordsPositive(count: seq<nat>, x: SymFreq)
    requires x in WithDummy(count)
    ensures x.key >= 1
    ensures x == DUMMY || (1 <= x.symIndex <= |count| && x.key == count[x.symIndex - 1])
  {
    if x != DUMMY { GatheredMember(count, |count|, 1, x); }
  }

  lemma {:induction false} OrderMember(count: seq<nat>, order: seq<SymFreq>, x: SymFreq)
    requires Ordered(count, order)
    ensures x in order <==>
      x == DUMMY || (1 <= x.symIndex <= |count| && count[x.symIndex - 1] > 0 && x.key == count[x.symIndex - 1])
  {
    var g := WithDummy(count);
    SameOrderIsPermutation(g, order);
    GatheredMember(count, |count|, 1, x);
    assert x in order <==> x in multiset(order);
    assert x in g <==> x in multiset(g);
  }

  lemma {:induction false} OrderDistinct(count: seq<nat>, order: seq<SymFreq>)
    requires Ordered(count, order)
    ensures forall i, j :: 0 <= i < j < |order| ==> order[i].symIndex != order[j].symIndex
  {
    var g := WithDummy(count);
    GatheredAscends(count, |count|, 1);
    DummyDistinct(count);
    SameOrderIsPermutation(g, order);
    DistinctPermutation(g, order);
    forall i, j | 0 <= i < j < |order| ensures order[i].symIndex != order[j].symIndex {
      OrderMember(count, order, order[i]);
      OrderMember(count, order, order[j]);
      assert order[i] != order[j];
    }
  }

  lemma {:induction false} DummyDistinct(count: seq<nat>)
    ensures Distinct(WithDummy(count))
  {
    var g, d := Gathered(count, |count|, 1), WithDummy(count);
    GatheredAscends(count, |count|, 1);
    forall i, j | 0 <= i < j < |d| ensures d[i] != d[j] {
      assert d[j] == g[j - 1];
      assert g[j - 1] in g;
      GatheredMember(count, |count|, 1, g[j - 1]);
      if i > 0 { assert d[i] == g[i - 1]; }
    }
  }

  // ----- lengths in ascending order, and the codes they give

  /** The lengths counted by c, from one bit up to k. */
  function ShortestUp(c: seq<int>, k: nat): (r: seq<nat>)
    requires Counts(c) && k < |c|
    ensures |r| == Total(c, k)
    ensures forall i :: 0 <= i < |r| ==> 1 <= r[i] <= k
  {
    if k == 0 then [] else ShortestUp(c, k - 1) + Repeat(k, c[k])
  }

  ghost predicate Ascending(s: seq<nat>) {
    forall i, j :: 0 <= i < j < |s| ==> s[i] <= s[j]
  }

  lemma {:induction false} ShortestUpAscends(c: seq<int>, k: nat)
    requires Counts(c) && k < |c|
    ensures Ascending(ShortestUp(c, k))
  {
    if k > 0 { ShortestUpAscends(c, k - 1); }
  }

  lemma {:induction false} CountShortestUp(c: seq<int>, k: nat, len: nat)
    requires Counts(c) && k < |c|
    ensures CountOf(ShortestUp(c, k), len) == if 1 <= len <= k then c[len] else 0
  {
    if k > 0 {
      CountShortestUp(c, k - 1, len);
      CountRepeat(k, c[k], len);
      CountAppend(ShortestUp(c, k - 1), Repeat(k, c[k]), len);
    }
  }

  lemma {:induction false} PastOfShortestUp(c: seq<int>, k: nat)
    requires Counts(c) && 1 <= k < |c|
    ensures Past(ShortestUp(c, k), k) == Space(c, k, k)
  {
    forall l | 1 <= l <= k ensures CountOf(ShortestUp(c, k), l) == c[l] { CountShortestUp(c, k, l); }
    PastIsSpace(ShortestUp(c, k), c, k);
  }

  lemma {:induction false} LongestFull(sizes: seq<nat>, limit: nat, len: nat)
    requires Complete(sizes, limit) && 1 <= len <= limit
    requires forall i :: 0 <= i < |sizes| ==> sizes[i] <= len
    ensures Past(sizes, len) == Pow2(len)
  {
    forall l | len < l <= limit ensures CountOf(sizes, l) == 0 { CountNone(sizes, l); }
    PastDoubles(sizes, len, limit - len);
    Pow2Add(len, limit - len);
    CancelInt(Past(sizes, len), Pow2(len), Pow2(limit - len));
  }

  /** The last of ascending lengths of a complete code gets the all-ones word. */
  lemma {:induction false} LastIsAllOnes(sizes: seq<nat>, limit: nat)
    requires Complete(sizes, limit) && sizes != [] && Ascending(sizes) && sizes[0] >= 1
    ensures Used(sizes, |sizes| - 1) && AllOnes(CodeWord(sizes, |sizes| - 1))
  {
    var last := |sizes| - 1;
    var len := sizes[last];
    LongestFull(sizes, limit, len);
    OnesWord(len);
  }

  /** Only the last word is all ones. */
  lemma {:induction false} OthersAreNotAllOnes(sizes: seq<nat>, limit: nat, p: nat)
    requires Complete(sizes, limit) && Ascending(sizes) && p < |sizes| - 1 && sizes[0] >= 1
    ensures Used(sizes, p) && !AllOnes(CodeWord(sizes, p))
  {
    var last := |sizes| - 1;
    LastIsAllOnes(sizes, limit);
    CodesArePrefixFree(sizes, limit, p, last);
    if AllOnes(CodeWord(sizes, p)) {
      OnesArePrefixes(CodeWord(sizes, p), CodeWord(sizes, last));
    }
  }

  lemma OnesArePrefixes(a: Word, b: Word)
    requires AllOnes(a) && AllOnes(b) && |a| <= |b|
    ensures a <= b
  {
  }

  // ----- removing the dummy

  lemma {:induction false} SameShortestUp(c: seq<int>, d: seq<int>, k: nat)
    requires Counts(c) && Counts(d) && k < |c| && forall l :: 1 <= l <= k ==> c[l] == d[l]
    ensures ShortestUp(c, k) == ShortestUp(d, k)
  {
    if k > 0 { SameShortestUp(c, d, k - 1); }
  }

  lemma RepeatOneMore(rest: seq<nat>, k: nat, m: nat)
    requires m > 0
    ensures rest + Repeat(k, m) == (rest + Repeat(k, m - 1)) + [k]
  {
  }

  /** Taking one code off the largest bucket takes the last length off the list. */
  lemma {:induction false} DropLast(c: seq<int>, len: nat, k: nat)
    requires Counts(c) && 1 <= len <= k < |c| && c[len] > 0
    requires forall l :: len < l <= k ==> c[l] == 0
    ensures Counts(c[len := c[len] - 1])
    ensures ShortestUp(c, k) == ShortestUp(c[len := c[len] - 1], k) + [len]
  {
    var d := c[len := c[len] - 1];
    if k == len {
      SameShortestUp(c, d, k - 1);
      RepeatOneMore(ShortestUp(c, k - 1), k, c[k]);
    } else {
      DropLast(c, len, k - 1);
      assert Repeat(k, 0) == [];
    }
  }

  lemma {:induction false} FirstWithoutLast(s: seq<nat>, last: nat, l: nat)
    requires l <= last
    ensures First(s + [last], l) == First(s, l)
  {
    if l > 1 {
      FirstWithoutLast(s, last, l - 1);
      assert (s + [last])[..|s|] == s;
    }
  }

  /** The other code words stay as they are. */
  lemma {:induction false} WordsStay(s: seq<nat>, last: nat, p: nat)
    requires Used(s, p) && s[p] <= last
    ensures Used(s + [last], p) && CodeWord(s + [last], p) == CodeWord(s, p)
  {
    FirstWithoutLast(s, last, s[p]);
    assert (s + [last])[..p] == s[..p];
  }

  lemma {:induction false} PastWithoutLast(s: seq<nat>, last: nat, l: nat)
    ensures Past(s, l) <= Past(s + [last], l)
  {
    assert (s + [last])[..|s|] == s;
    if l > 1 { PastWithoutLast(s, last, l - 1); }
  }

  /** Code lengths of 1 to 16 bits with room for all codes, none of them all ones. */
  ghost predicate GoodWords(sizes: seq<nat>) {
    && Fits(sizes, LIMIT) && Ascending(sizes)
    && forall p :: 0 <= p < |sizes| ==> 1 <= sizes[p] <= LIMIT && !AllOnes(CodeWord(sizes, p))
  }

  lemma {:induction false} WithoutDummy(sizes: seq<nat>, last: nat)
    requires Complete(sizes + [last], LIMIT) && Ascending(sizes + [last])
    requires forall p :: 0 <= p < |sizes + [last]| ==> 1 <= (sizes + [last])[p]
    ensures GoodWords(sizes)
  {
    var all := sizes + [last];
    PastWithoutLast(sizes, last, LIMIT);
    forall p | 0 <= p < |sizes| ensures 1 <= sizes[p] <= LIMIT && !AllOnes(CodeWord(sizes, p)) {
      assert all[p] == sizes[p];
      assert all[p] <= all[|sizes|];
      OthersAreNotAllOnes(all, LIMIT, p);
      WordsStay(sizes, last, p);
    }
    assert forall i, j :: 0 <= i < j < |sizes| ==> all[i] == sizes[i] && all[j] == sizes[j];
  }

  // ----- the table

  /** The 17 bucket counts as a histogram of lengths. */
  function Padded(bits: seq<nat>): (c: seq<int>)
    ensures |c| == MAX_HUFF_CODESIZE + 1
    ensures forall l :: 0 <= l < |c| ==> c[l] == if l < |bits| then bits[l] else 0
  {
    seq(MAX_HUFF_CODESIZE + 1, l requires 0 <= l => if l < |bits| then bits[l] as int else 0)
  }

  function Sizes(bits: seq<nat>): (r: seq<nat>)
  {
    ShortestUp(Padded(bits), LIMIT)
  }

  /** Symbols in the order of the table: exactly those that occur, each once, most frequent first. */
  ghost predicate Listed(count: seq<nat>, val: seq<nat>, n: nat) {
    && n <= |val|
    && (forall p :: 0 <= p < n ==> val[p] < |count| && count[val[p]] > 0)
    && (forall p, q :: 0 <= p < q < n ==> val[p] != val[q] && count[val[p]] >= count[val[q]])
    && (forall sym :: 0 <= sym < |count| && count[sym] > 0 ==> sym in val[..n])
  }

  ghost predicate JpegTable(count: seq<nat>, bits: seq<nat>, val: seq<nat>) {
    |bits| == 17 && GoodWords(Sizes(bits)) && Listed(count, val, |Sizes(bits)|)
  }

  lemma {:induction false} OrderIsListed(count: seq<nat>, order: seq<SymFreq>, val: seq<nat>)
    requires Ordered(count, order) && 1 <= |order| <= |val| + 1
    requires forall p :: 0 <= p < |order| - 1 ==> val[p] == order[|order| - 1 - p].symIndex - 1
    ensures Listed(count, val, |order| - 1)
  {
    var n := |order| - 1;
    DummyIsFirst(count, order);
    OrderDistinct(count, order);
    forall p | 0 <= p < n ensures val[p] < |count| && count[val[p]] > 0 && count[val[p]] == order[n - p].key {
      OrderMember(count, order, order[n - p]);
      assert order[0].symIndex != order[n - p].symIndex;
    }
    forall p, q | 0 <= p < q < n ensures val[p] != val[q] && count[val[p]] >= count[val[q]] {
      assert order[n - q].key <= order[n - p].key;
      assert order[n - q].symIndex != order[n - p].symIndex;
    }
    forall sym | 0 <= sym < |count| && count[sym] > 0 ensures sym in val[..n] {
      var x := SymFreq(count[sym], sym + 1);
      OrderMember(count, order, x);
      var k :| 0 <= k < |order| && order[k] == x;
      assert k > 0;
      assert val[..n][n - k] == sym;
    }
  }

  /** The largest length in use. */
  lemma {:induction false} LimitedIsComplete(c: seq<int>, n: nat, lens: seq<nat>)
    requires LimitedCounts(c, n, lens, LIMIT) && n >= 2
    ensures Complete(ShortestUp(c, LIMIT), LIMIT) && |ShortestUp(c, LIMIT)| == n
  {
    PastOfShortestUp(c, LIMIT);
  }

  // ----- building the table

  method GatherWithDummy(count: array<nat>, tableLen: nat, syms0: array<SymFreq>) returns (n: nat)
    requires tableLen <= count.Length && tableLen < syms0.Length
    modifies syms0
    ensures 1 <= n <= tableLen + 1 && syms0[..n] == WithDummy(count[..tableLen])
  {
    syms0[0] := DUMMY;
    n := 1;
    for i := 0 to tableLen
      invariant 1 <= n <= i + 1 && syms0[..n] == [DUMMY] + Gathered(count[..tableLen], i, 1)
    {
      if count[i] != 0 {
        syms0[n] := SymFreq(count[i], i + 1);
        n := n + 1;
      }
    }
  }

  /** Copies the histogram to the bucket counts, which are bytes. */
  method CopyBuckets(c: array<int>, bits: array<nat>)
    requires c.Length == MAX_HUFF_CODESIZE + 1 && bits.Length == 17
    requires forall i :: 1 <= i <= 16 ==> 0 <= c[i] < 256
    modifies bits
    ensures bits[0] == 0 && forall i :: 1 <= i <= 16 ==> bits[i] == c[i]
  {
    bits[0] := 0;
    for i := 1 to 17
      modifies bits
      invariant bits[0] == 0 && forall l :: 1 <= l < i ==> bits[l] == c[l]
    {
      bits[i] := c[i] % 256;
    }
  }

  /** Takes one code off the largest bucket. */
  method RemoveDummy(bits: array<nat>) returns (ghost len: nat)
    requires bits.Length == 17 && exists i :: 1 <= i <= 16 && bits[i] > 0
    modifies bits
    ensures 1 <= len <= 16 && old(bits[len]) > 0
    ensures forall l :: len < l <= 16 ==> old(bits[l]) == 0
    ensures bits[..] == old(bits[..])[len := old(bits[len]) - 1]
  {
    var i := 16;
    while i >= 1
      invariant 0 <= i <= 16 && bits[..] == old(bits[..])
      invariant forall l :: i < l <= 16 ==> bits[l] == 0
    {
      if bits[i] != 0 {
        len := i;
        bits[i] := bits[i] - 1;
        return;
      }
      i := i - 1;
    }
  }

  lemma {:induction false} SomeCount(c: seq<int>, k: nat)
    requires Counts(c) && k < |c| && Total(c, k) > 0
    ensures exists i :: 1 <= i <= k && c[i] > 0
  {
    if c[k] == 0 { SomeCount(c, k - 1); }
  }

  lemma {:induction false} CountAtMostTotal(c: seq<int>, i: nat, k: nat)
    requires Counts(c) && 1 <= i <= k < |c|
    ensures c[i] <= Total(c, k)
  {
    TotalGrows(c, i - 1, i);
    TotalGrows(c, i, k);
  }

  /** What is left after removing the dummy's code. */
  lemma {:induction false} TableWithoutDummy(c: seq<int>, n: nat, lens: seq<nat>, before: seq<nat>, after: seq<nat>, len: nat)
    requires LimitedCounts(c, n, lens, LIMIT) && n >= 1
    requires |before| == 17 && forall i :: 1 <= i <= 16 ==> before[i] == c[i]
    requires 1 <= len <= 16 && before[len] > 0 && forall l :: len < l <= 16 ==> before[l] == 0
    requires after == before[len := before[len] - 1]
    ensures GoodWords(Sizes(after)) && |Sizes(after)| == n - 1
  {
    hide LimitsTo, GoodWords, Space, Complete, Ascending, CodeWord;
    DropLast(c, len, LIMIT);
    var d := c[len := c[len] - 1];
    var sizes := ShortestUp(d, LIMIT);
    SameShortestUp(d, Padded(after), LIMIT);
    assert |ShortestUp(c, LIMIT)| == n;
    if n >= 2 {
      LimitedIsComplete(c, n, lens);
      ShortestUpAscends(c, LIMIT);
      WithoutDummy(sizes, len);
    } else {
      assert sizes == [];
      NoWords();
    }
  }

  lemma {:induction false} NoWords()
    ensures GoodWords([])
  {
    NoPast(LIMIT);
  }

  lemma {:induction false} NoPast(l: nat)
    ensures Past([], l) == 0
  {
    if l > 1 { NoPast(l - 1); }
  }

  /** The longest length measured for these counts is one that the histogram has no room for. */
  ghost predicate Overruns(count: seq<nat>) {
    exists order, lens :: Measured(count, order, lens) && lens[0] > MAX_HUFF_CODESIZE
  }

  /** `lens` are measured for the dummy and the symbols that occur, in their order. */
  ghost predicate Measured(count: seq<nat>, order: seq<SymFreq>, lens: seq<nat>) {
    Ordered(count, order) && MergedLengths(Keys(order), TWO_TO_32, lens) && lens != []
  }

  /** The counts leave no choice: every way to measure them shows whether they overrun. */
  lemma OverrunsAsMeasured(count: seq<nat>, order: seq<SymFreq>, lens: seq<nat>)
    requires Measured(count, order, lens)
    ensures Overruns(count) <==> lens[0] > MAX_HUFF_CODESIZE
  {
    hide StablySorted, MergedLengths, WithDummy;
    if order', lens' :| Measured(count, order', lens') && lens'[0] > MAX_HUFF_CODESIZE {
      MeasuredOnce(WithDummy(count), order, order', TWO_TO_32, lens, lens');
    }
  }

  /** It takes 33 different symbols at least, and a total of 11405773 with the dummy. */
  lemma OverrunsNeeds(count: seq<nat>)
    requires Overruns(count)
    ensures |WithDummy(count)| >= 34 && Sum(count) + 1 >= DEEP_TOTAL
  {
    hide Sum, WithDummy, MergedLengths, StablySorted, Shallow;
    var order, lens :| Measured(count, order, lens) && lens[0] > MAX_HUFF_CODESIZE;
    SortedKeys(WithDummy(count), order);
    LongEnough(Keys(order), TWO_TO_32, lens);
    if Sum(count) + 1 < DEEP_TOTAL {
      KeysFit(count);
      ShallowFits(WithDummy(count), order, TWO_TO_32, lens);
    }
  }

  lemma LongEnough(w: seq<nat>, modulus: nat, lens: seq<nat>)
    requires MergedLengths(w, modulus, lens) && lens != [] && lens[0] > 1
    ensures lens[0] < |w|
  {
    hide Descending;
    if |w| >= 2 { MergedIsComplete(w, modulus, lens, lens[0]); }
  }

  /** The counters of symbols are 32 bits wide. */
  ghost predicate FourByteCounts(count: seq<nat>) {
    forall i :: 0 <= i < |count| ==> count[i] < TWO_TO_32
  }

  /** Collects, sorts and measures the dummy and the symbols that occur. */
  method MeasureSymbols(count: array<nat>, tableLen: nat)
      returns (fits: bool, n: nat, syms: array<SymFreq>, c: array<int>, ghost order: seq<SymFreq>, ghost lens: seq<nat>)
    requires tableLen <= count.Length && tableLen <= 256 && FourByteCounts(count[..tableLen])
    ensures fresh(syms) && fresh(c) && n <= syms.Length && c.Length == MAX_HUFF_CODESIZE + 1
    ensures n == |WithDummy(count[..tableLen])| == |order|
    ensures Measured(count[..tableLen], order, lens) && (fits <==> !Overruns(count[..tableLen]))
    ensures forall i :: 0 <= i < n ==> syms[i].symIndex == order[i].symIndex
    ensures fits ==> LimitedCounts(c[..], n, lens, LIMIT)
  {
    hide StablySorted, Pow2, Pow256, LimitedCounts, MergedLengths, Gathered, Sum, FourByteCounts, Overruns;
    KeysInFourBytes(count[..tableLen]);
    Pow32();
    FourBytes();
    var syms0, syms1 := new SymFreq[257], new SymFreq[257];
    n := GatherWithDummy(count, tableLen, syms0);
    assert syms0[..n] == WithDummy(count[..tableLen]);
    fits, syms, c, order, lens := LimitedLengthCounts(n, syms0, syms1, 4, TWO_TO_32, LIMIT);
    AsMany(Keys(order), TWO_TO_32, lens);
    OverrunsAsMeasured(count[..tableLen], order, lens);
  }

  lemma AsMany(w: seq<nat>, modulus: nat, lens: seq<nat>)
    requires MergedLengths(w, modulus, lens)
    ensures |lens| == |w|
  {
  }

  lemma KeysInFourBytes(count: seq<nat>)
    requires FourByteCounts(count)
    ensures forall i :: 0 <= i < |WithDummy(count)| ==> WithDummy(count)[i].key < TWO_TO_32
  {
    hide WithDummy;
    var s := WithDummy(count);
    forall i | 0 <= i < |s| ensures s[i].key < TWO_TO_32 {
      assert s[i] in s;
      RecordsPositive(count, s[i]);
    }
  }

  lemma FourBytes()
    ensures Pow256(2) == 65536 && Pow256(4) == TWO_TO_32
  {
    assert Pow256(2) == 65536;
  }

  lemma FewSymbols(count: seq<nat>)
    requires |Gathered(count, |count|, 1)| <= 254
    ensures 1 <= |WithDummy(count)| <= 255
  {
  }

  /** Builds the bucket counts and the symbol list for the symbols that occur, unless a measured length has no place in the
      histogram: there the source goes on and counts it behind the array's end, here the method stops. */
  method OptimizeHuffmanTable(count: array<nat>, tableLen: nat, bits: array<nat>, val: array<nat>) returns (fits: bool)
    requires tableLen <= count.Length && tableLen <= 256 && bits.Length == 17 && val.Length == 256
    requires count != bits && count != val && bits != val
    requires |Gathered(count[..tableLen], tableLen, 1)| <= 254 && FourByteCounts(count[..tableLen])
    modifies bits, val
    ensures fits <==> !Overruns(count[..tableLen])
    ensures fits ==> JpegTable(count[..tableLen], bits[..], val[..])
  {
    hide Sum, WithDummy, Ordered, LimitedCounts, GoodWords, Listed, Sizes, MergedLengths, Overruns;
    ghost var counts := count[..tableLen];
    FewSymbols(counts);
    var n, syms, c;
    ghost var order, lens;
    fits, n, syms, c, order, lens := MeasureSymbols(count, tableLen);
    if !fits { return; }
    BucketsFit(c[..], n, lens);
    ghost var cs := c[..];
    CopyBuckets(c, bits);
    ghost var before := bits[..];
    ghost var len := RemoveDummy(bits);
    TableWithoutDummy(cs, n, lens, before, bits[..], len);
    ListSymbols(syms, n, val, counts, order);
  }

  lemma KeysFit(count: seq<nat>)
    requires Sum(count) + 1 < DEEP_TOTAL
    ensures Shallow(WithDummy(count), TWO_TO_32)
  {
    hide Sum, WithDummy, Shallow;
    var s := WithDummy(count);
    DummySum(count);
    forall i | 0 <= i < |s| ensures s[i].key > 0 {
      assert s[i] in s;
      RecordsPositive(count, s[i]);
    }
    SmallTotalsAreShallow(s, TWO_TO_32);
  }

  lemma DummySum(count: seq<nat>)
    ensures Sum(Keys(WithDummy(count))) == 1 + Sum(count)
  {
    hide Sum;
    var g := Gathered(count, |count|, 1);
    GatheredSum(count, |count|, 1);
    assert count[..|count|] == count;
    assert Keys(WithDummy(count)) == [1] + Keys(g);
    SumHead([1] + Keys(g));
    assert ([1] + Keys(g))[1..] == Keys(g);
  }

  lemma {:induction false} BucketsFit(c: seq<int>, n: nat, lens: seq<nat>)
    requires LimitedCounts(c, n, lens, LIMIT) && 1 <= n <= 255
    ensures forall i :: 1 <= i <= 16 ==> 0 <= c[i] < 256
    ensures exists i :: 1 <= i <= 16 && c[i] > 0
  {
    SomeCount(c, LIMIT);
    forall i | 1 <= i <= 16 ensures 0 <= c[i] < 256 { CountAtMostTotal(c, i, LIMIT); }
  }

  method ListSymbols(syms: array<SymFreq>, n: nat, val: array<nat>, ghost count: seq<nat>, ghost order: seq<SymFreq>)
    requires 1 <= n <= syms.Length && n <= 257 && val.Length == 256 && |order| == n && |count| <= 256
    requires forall i :: 0 <= i < n ==> syms[i].symIndex == order[i].symIndex
    requires Ordered(count, order)
    modifies val
    ensures Listed(count, val[..], n - 1)
  {
    RealSymbols(count, order);
    hide Ordered, Listed;
    var i := n - 1;
    while i >= 1
      invariant 0 <= i <= n - 1
      invariant forall p :: 0 <= p < n - 1 - i ==> val[p] == order[n - 1 - p].symIndex - 1
    {
      val[n - 1 - i] := (syms[i].symIndex - 1) % 256;
      i := i - 1;
    }
    OrderIsListed(count, order, val[..]);
  }

  lemma RealSymbols(count: seq<nat>, order: seq<SymFreq>)
    requires Ordered(count, order)
    ensures forall k :: 1 <= k < |order| ==> 1 <= order[k].symIndex <= |count|
  {
    DummyIsFirst(count, order);
    OrderDistinct(count, order);
    forall k | 1 <= k < |order| ensures 1 <= order[k].symIndex <= |count| {
      OrderMember(count, order, order[k]);
      assert order[0].symIndex != order[k].symIndex;
    }
  }

  // ----- codes for a table

  /** The list of code sizes, shortest first, with a zero at the end. */
  method ListSizes(bits: array<nat>) returns (huffSize: array<nat>, last: nat)
    requires bits.Length == 17 && |Sizes(bits[..])| <= 256
    ensures fresh(huffSize) && huffSize.Length == 257
    ensures last == |Sizes(bits[..])| && huffSize[..last] == Sizes(bits[..]) && huffSize[last] == 0
  {
    ghost var c := Padded(bits[..]);
    huffSize := new nat[257];
    var p := 0;
    for l := 1 to 17
      modifies huffSize
      invariant p == Total(c, l - 1) <= 256
      invariant huffSize[..p] == ShortestUp(c, l - 1)
    {
      ghost var start := p;
      TotalGrows(c, l, LIMIT);
      for i := 1 to bits[l] + 1
        modifies huffSize
        invariant p == start + i - 1 <= 256
        invariant huffSize[..p] == ShortestUp(c, l - 1) + Repeat(l, i - 1)
      {
        huffSize[p] := l;
        p := p + 1;
      }
    }
    huffSize[p] := 0;
    last := p;
  }

  /** Codes given out so far. */
  ghost predicate CodesSoFar(codes: seq<nat>, sizes: seq<nat>, p: nat) {
    p <= |sizes| && p <= |codes| && forall q :: 0 <= q < p && sizes[q] > 0 ==> codes[q] == Code(sizes, q)
  }

  /** All entries before p are shorter than si, those from p on are not. */
  ghost predicate SplitAt(s: seq<nat>, p: nat, si: nat) {
    p <= |s| && (forall q :: 0 <= q < p ==> s[q] < si) && (forall q :: p <= q < |s| ==> si <= s[q])
  }

  lemma OneMoreCode(codes: seq<nat>, s: seq<nat>, p: nat, code: nat)
    requires CodesSoFar(codes, s, p) && p < |s| && p < |codes|
    requires code == First(s, s[p]) + CountOf(s[..p], s[p])
    ensures CodesSoFar(codes[p := code], s, p + 1)
  {
    hide First, CountOf;
  }

  /** All entries before p are at most si, those from p on at least si. */
  ghost predicate Around(s: seq<nat>, p: nat, si: nat) {
    p <= |s| && (forall q :: 0 <= q < p ==> s[q] <= si) && (forall q :: p <= q < |s| ==> si <= s[q])
  }

  lemma AroundStep(s: seq<nat>, p: nat, si: nat)
    requires Around(s, p, si) && p < |s| && s[p] == si
    ensures Around(s, p + 1, si)
    ensures CountOf(s[..p + 1], si) == CountOf(s[..p], si) + 1
  {
    CountOfPrefix(s, p, si);
  }

  lemma RunStarts(s: seq<nat>, p: nat, si: nat)
    requires SplitAt(s, p, si)
    ensures Around(s, p, si) && CountOf(s[..p], si) == 0
  {
    CountNone(s[..p], si);
  }

  lemma RunEnds(s: seq<nat>, p: nat, si: nat)
    requires Around(s, p, si) && Ascending(s) && (p < |s| ==> s[p] != si)
    ensures SplitAt(s, p, si + 1) && CountOf(s[..p], si) == CountOf(s, si)
  {
    assert s == s[..p] + s[p..];
    CountAppend(s[..p], s[p..], si);
    CountNone(s[p..], si);
  }

  /** Consecutive codes for the entries of one length. */
  method CodeRun(huffSize: array<nat>, huffCode: array<nat>, ghost s: seq<nat>, si: nat, first: nat, start: nat)
      returns (code: nat, p: nat)
    requires huffSize != huffCode && huffSize.Length == huffCode.Length && |s| < huffSize.Length
    requires huffSize[..|s|] == s && huffSize[|s|] == 0 && 1 <= si
    requires Ascending(s) && SplitAt(s, start, si) && start <= |s| && first == First(s, si)
    requires CodesSoFar(huffCode[..], s, start)
    modifies huffCode
    ensures start <= p <= |s| && SplitAt(s, p, si + 1) && code == First(s, si) + CountOf(s, si)
    ensures start < |s| && s[start] == si ==> start < p
    ensures CodesSoFar(huffCode[..], s, p)
  {
    hide First, CountOf, CodesSoFar, Ascending, Around, SplitAt;
    code, p := first, start;
    RunStarts(s, start, si);
    while huffSize[p] == si
      modifies huffCode
      invariant start <= p <= |s| && Around(s, p, si)
      invariant code == First(s, si) + CountOf(s[..p], si)
      invariant CodesSoFar(huffCode[..], s, p)
      decreases |s| - p
    {
      assert huffSize[..|s|][p] == s[p] == si;
      AroundStep(s, p, si);
      OneMoreCode(huffCode[..], s, p, code);
      huffCode[p] := code;
      code := code + 1;
      p := p + 1;
    }
    assert p < |s| ==> huffSize[..|s|][p] == s[p];
    RunEnds(s, p, si);
  }

  /** Consecutive codes within a length, doubling from one length to the next. */
  method CountCodes(huffSize: array<nat>, last: nat) returns (huffCode: array<nat>)
    requires last < huffSize.Length && huffSize[last] == 0
    requires Ascending(huffSize[..last]) && forall p :: 0 <= p < last ==> 1 <= huffSize[p] <= LIMIT
    ensures fresh(huffCode) && huffCode.Length == huffSize.Length
    ensures CodesSoFar(huffCode[..], huffSize[..last], last)
  {
    ghost var s := huffSize[..last];
    huffCode := new nat[huffSize.Length];
    var code, si, p := 0, huffSize[0], 0;
    if last > 0 {
      assert s[0] == si;
      NothingShorter(s, si);
    }
    hide First, CountOf;
    while huffSize[p] != 0
      modifies huffCode
      invariant p <= last && (p < last ==> 1 <= si)
      invariant p < last ==> SplitAt(s, p, si) && code == First(s, si)
      invariant CodesSoFar(huffCode[..], s, p)
      decreases last - p, if p < last then s[p] - si else 0
    {
      code, p := CodeRun(huffSize, huffCode, s, si, code, p);
      NextFirst(s, si);
      code := 2 * code;
      si := si + 1;
    }
  }

  lemma NextFirst(s: seq<nat>, l: nat)
    requires l >= 1
    ensures First(s, l + 1) == 2 * (First(s, l) + CountOf(s, l))
  {
  }

  lemma {:induction false} NothingShorter(s: seq<nat>, l: nat)
    requires Ascending(s) && s != [] && l <= s[0]
    ensures First(s, l) == 0
  {
    if l > 1 {
      NothingShorter(s, l - 1);
      CountNone(s, l - 1);
    }
  }

  /** The code and code size of the first n symbols in the table, and zero for all others. */
  ghost predicate TableCodes(codes: seq<nat>, codeSizes: seq<nat>, sizes: seq<nat>, val: seq<nat>, n: nat) {
    && n <= |sizes| <= |val| && |codes| == |codeSizes| == 256
    && (forall p :: 0 <= p < n ==> HasCode(codes, codeSizes, sizes, val, p))
    && (forall sym :: 0 <= sym < 256 && sym !in val[..n] ==> codes[sym] == 0 && codeSizes[sym] == 0)
  }

  ghost predicate HasCode(codes: seq<nat>, codeSizes: seq<nat>, sizes: seq<nat>, val: seq<nat>, p: nat)
    requires p < |sizes| <= |val| && |codes| == |codeSizes| == 256
  {
    Used(sizes, p) && val[p] < 256 && codes[val[p]] == Code(sizes, p) && codeSizes[val[p]] == sizes[p]
  }

  lemma {:induction false} StoreStep(codes: seq<nat>, codeSizes: seq<nat>, sizes: seq<nat>, val: seq<nat>, p: nat, code: nat)
    requires TableCodes(codes, codeSizes, sizes, val, p) && p < |sizes|
    requires Used(sizes, p) && val[p] < 256 && code == Code(sizes, p)
    requires forall q :: 0 <= q < p ==> val[q] != val[p]
    ensures TableCodes(codes[val[p] := code], codeSizes[val[p] := sizes[p]], sizes, val, p + 1)
  {
    hide Code;
    var codes', codeSizes' := codes[val[p] := code], codeSizes[val[p] := sizes[p]];
    forall q | 0 <= q < p + 1 ensures HasCode(codes', codeSizes', sizes, val, q) {
      if q < p { assert HasCode(codes, codeSizes, sizes, val, q); }
    }
    assert val[..p + 1] == val[..p] + [val[p]];
  }

  /** Moves the codes from their order in the table to the symbols. */
  method StoreCodes(huffSize: array<nat>, huffCode: array<nat>, last: nat, val: array<nat>, codes: array<nat>, codeSizes: array<nat>,
                    ghost s: seq<nat>)
    requires last == |s| <= huffSize.Length && last <= huffCode.Length && last <= val.Length
    requires codes.Length == 256 && codeSizes.Length == 256
    requires codes != codeSizes && codes !in {huffSize, huffCode, val} && codeSizes !in {huffSize, huffCode, val}
    requires forall p :: 0 <= p < last ==> huffSize[p] == s[p] > 0 && val[p] < 256
    requires CodesSoFar(huffCode[..], s, last)
    requires forall p, q :: 0 <= p < q < last ==> val[p] != val[q]
    modifies codes, codeSizes
    ensures TableCodes(codes[..], codeSizes[..], s, val[..], last)
  {
    hide Code;
    forall i | 0 <= i < 256 { codes[i] := 0; }
    forall i | 0 <= i < 256 { codeSizes[i] := 0; }
    ghost var v := val[..];
    assert TableCodes(codes[..], codeSizes[..], s, v, 0);
    hide TableCodes;
    for p := 0 to last
      modifies codes, codeSizes
      invariant TableCodes(codes[..], codeSizes[..], s, v, p)
    {
      assert v[p] == val[p] && forall q :: 0 <= q < p ==> v[q] == val[q];
      StoreStep(codes[..], codeSizes[..], s, v, p, huffCode[p]);
      codes[val[p]] := huffCode[p];
      codeSizes[val[p]] := huffSize[p];
    }
  }

  method ComputeHuffmanTable(codes: array<nat>, codeSizes: array<nat>, bits: array<nat>, val: array<nat>)
    requires codes.Length == 256 && codeSizes.Length == 256 && bits.Length == 17 && val.Length == 256
    requires codes != codeSizes && codes != bits && codes != val && codeSizes != bits && codeSizes != val
    requires |Sizes(bits[..])| <= 256
    requires forall p :: 0 <= p < |Sizes(bits[..])| ==> val[p] < 256
    requires forall p, q :: 0 <= p < q < |Sizes(bits[..])| ==> val[p] != val[q]
    modifies codes, codeSizes
    ensures TableCodes(codes[..], codeSizes[..], Sizes(bits[..]), val[..], |Sizes(bits[..])|)
  {
    ghost var s := Sizes(bits[..]);
    ShortestUpAscends(Padded(bits[..]), LIMIT);
    hide ShortestUp, Ascending, CodesSoFar, TableCodes;
    var huffSize, last := ListSizes(bits);
    assert forall p :: 0 <= p < last ==> huffSize[p] == huffSize[..last][p] == s[p];
    var huffCode := CountCodes(huffSize, last);
    StoreCodes(huffSize, huffCode, last, val, codes, codeSizes, s);
  }
}
