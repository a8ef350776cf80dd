/** What the code lengths of a table cost on the table's own counts: no more than any prefix code unless a length had to be
    limited, and little more even then. */
module TableCost {
  import opened Arithmetic
  import opened HuffmanCost
  import opened PrefixCodes
  import opened SymbolCounts
  import opened RadixSort
  import opened MergeWeights
  import opened MinimumRedundancy
  import opened LengthLimit
  import opened CanonicalCodes
  import opened CodeLengths
  import opened HuffmanTables
  import opened LimitCost

  // ----- costs by symbol and by record

  predicate InTable(s: seq<SymFreq>, n: nat) {
    forall k :: 0 <= k < |s| ==> s[k].symIndex < n
  }

  /** The sizes of the records' symbols. */
  function SizesAlong(s: seq<SymFreq>, sizes: seq<nat>): (r: seq<nat>)
    requires InTable(s, |sizes|)
    ensures |r| == |s| && forall k :: 0 <= k < |r| ==> r[k] == sizes[s[k].symIndex]
  {
    seq(|s|, k requires 0 <= k < |s| => sizes[s[k].symIndex])
  }

  function RecordCost(s: seq<SymFreq>, sizes: seq<nat>): nat
    requires InTable(s, |sizes|)
  {
    Cost(Keys(s), SizesAlong(s, sizes))
  }

  lemma RecordCostSnoc(s: seq<SymFreq>, x: SymFreq, sizes: seq<nat>)
    requires InTable(s, |sizes|) && x.symIndex < |sizes|
    ensures InTable(s + [x], |sizes|) && RecordCost(s + [x], sizes) == RecordCost(s, sizes) + x.key * sizes[x.symIndex]
  {
    CostSnoc(Keys(s), SizesAlong(s, sizes), x.key, sizes[x.symIndex]);
    assert Keys(s + [x]) == Keys(s) + [x.key];
    assert SizesAlong(s + [x], sizes) == SizesAlong(s, sizes) + [sizes[x.symIndex]];
  }

  lemma RecordCostWithout(s: seq<SymFreq>, k: nat, sizes: seq<nat>)
    requires InTable(s, |sizes|) && k < |s|
    ensures InTable(Without(s, k), |sizes|)
    ensures RecordCost(s, sizes) == RecordCost(Without(s, k), sizes) + s[k].key * sizes[s[k].symIndex]
  {
    CostWithout(Keys(s), SizesAlong(s, sizes), k);
    assert Without(Keys(s), k) == Keys(Without(s, k));
    assert Without(SizesAlong(s, sizes), k) == SizesAlong(Without(s, k), sizes);
  }

  lemma {:induction false} PermutedCost(s: seq<SymFreq>, t: seq<SymFreq>, sizes: seq<nat>)
    requires multiset(s) == multiset(t) && InTable(s, |sizes|) && InTable(t, |sizes|)
    ensures RecordCost(s, sizes) == RecordCost(t, sizes)
  {
    hide RecordCost;
    assert |multiset(s)| == |s| && |multiset(t)| == |t|;
    if s != [] {
      var init, last := s[..|s| - 1], s[|s| - 1];
      assert last in multiset(s);
      assert last in t;
      var k :| 0 <= k < |t| && t[k] == last;
      RemoveBoth(s, t, k);
      RecordCostWithout(t, k, sizes);
      PermutedCost(init, Without(t, k), sizes);
      RecordCostSnoc(init, last, sizes);
      assert s == init + [last];
    } else {
      assert t == [];
    }
  }

  lemma {:induction false} GatheredCost(count: seq<nat>, sizes: seq<nat>, k: nat)
    requires |count| == |sizes| && k <= |count|
    ensures InTable(Gathered(count, k, 0), |sizes|)
    ensures RecordCost(Gathered(count, k, 0), sizes) == Cost(count[..k], sizes[..k])
  {
    hide RecordCost, Cost;
    if k == 0 {
      NothingCosts(sizes);
      assert count[..0] == [] && sizes[..0] == [];
    } else {
      GatheredCost(count, sizes, k - 1);
      assert count[..k] == count[..k - 1] + [count[k - 1]] && sizes[..k] == sizes[..k - 1] + [sizes[k - 1]];
      CostSnoc(count[..k - 1], sizes[..k - 1], count[k - 1], sizes[k - 1]);
      if count[k - 1] > 0 {
        RecordCostSnoc(Gathered(count, k - 1, 0), SymFreq(count[k - 1], k - 1), sizes);
      } else {
        assert Gathered(count, k, 0) == Gathered(count, k - 1, 0);
      }
    }
  }

  lemma NothingCosts(sizes: seq<nat>)
    ensures RecordCost([], sizes) == 0 == Cost([], [])
  {
  }

  /** The symbols that do not occur cost nothing. */
  lemma OrderedCost(count: seq<nat>, order: seq<SymFreq>, sizes: seq<nat>)
    requires Ordered(count, order) && |sizes| == |count|
    ensures InTable(order, |sizes|) && RecordCost(order, sizes) == Cost(count, sizes)
  {
    hide RecordCost, Cost, Gathered, StablySorted;
    GatheredCost(count, sizes, |count|);
    InRange(count, order);
    SortedKeys(Gathered(count, |count|, 0), order);
    PermutedCost(Gathered(count, |count|, 0), order, sizes);
    assert count[..|count|] == count && sizes[..|count|] == sizes;
  }

  lemma GivenOutAlong(sizes: seq<nat>, order: seq<SymFreq>, a: seq<nat>)
    requires GivenOut(sizes, order, 0, a)
    ensures InTable(order, |sizes|) && SizesAlong(order, sizes) == a
  {
    forall k | 0 <= k < |order| ensures order[k].symIndex < |sizes| && sizes[order[k].symIndex] == a[k] {
      assert HasSize(sizes, order, 0, a, k);
    }
  }

  /** The weights are sorted, positive, and sum up to all counts. */
  lemma OrderedWeights(count: seq<nat>, order: seq<SymFreq>)
    requires Ordered(count, order)
    ensures Sorted(Keys(order)) && Sum(Keys(order)) == Sum(count)
    ensures forall k :: 0 <= k < |order| ==> order[k].key > 0
    ensures |order| == |Gathered(count, |count|, 0)|
  {
    hide Sum, Gathered, StablySorted;
    SortedKeys(Gathered(count, |count|, 0), order);
    GatheredSum(count, |count|, 0);
    assert count[..|count|] == count;
    forall k | 0 <= k < |order| ensures order[k].key > 0 { OrderAt(count, order, k); }
  }

  // ----- any other code for the same symbols

  /** A code with a word for every symbol that occurs, none a prefix of another. */
  ghost predicate CodeFor(count: seq<nat>, words: seq<Word>) {
    && |words| == |count|
    && (forall i :: 0 <= i < |count| && count[i] > 0 ==> words[i] != [])
    && (forall i, j :: 0 <= i < |count| && 0 <= j < |count| && i != j && count[i] > 0 && count[j] > 0 ==> Unrelated(words[i], words[j]))
  }

  function WordsAlong(order: seq<SymFreq>, words: seq<Word>): (r: seq<Word>)
    requires InTable(order, |words|)
    ensures |r| == |order| && forall k :: 0 <= k < |r| ==> r[k] == words[order[k].symIndex]
  {
    seq(|order|, k requires 0 <= k < |order| => words[order[k].symIndex])
  }

  lemma CodeAlong(count: seq<nat>, order: seq<SymFreq>, words: seq<Word>)
    requires Ordered(count, order) && CodeFor(count, words)
    ensures |words| == |count| && InTable(order, |words|) && PrefixFree(WordsAlong(order, words))
    ensures Lengths(WordsAlong(order, words)) == SizesAlong(order, Lengths(words))
    ensures forall k :: 0 <= k < |order| ==> words[order[k].symIndex] != []
  {
    hide Ordered;
    InRange(count, order);
    OrderDistinct(count, order);
    var r := WordsAlong(order, words);
    forall k | 0 <= k < |order| ensures words[order[k].symIndex] != [] { OrderAt(count, order, k); }
    forall i, j | 0 <= i < j < |r| ensures Unrelated(r[i], r[j]) {
      OrderAt(count, order, i);
      OrderAt(count, order, j);
    }
    PairwiseIsPrefixFree(r);
  }

  /** The code words of any table that fits and has the symbols that occur. */
  ghost predicate Covers(sizes: seq<nat>, limit: nat, count: seq<nat>) {
    && |sizes| == |count| && Fits(sizes, limit)
    && forall i :: 0 <= i < |count| && count[i] > 0 ==> sizes[i] > 0
  }

  function TableWords(sizes: seq<nat>): (r: seq<Word>)
    ensures |r| == |sizes| && forall i :: 0 <= i < |r| ==> |r[i]| == sizes[i]
  {
    seq(|sizes|, i requires 0 <= i < |sizes| => if sizes[i] > 0 then CodeWord(sizes, i) else [])
  }

  lemma TableIsCode(sizes: seq<nat>, limit: nat, count: seq<nat>)
    requires Covers(sizes, limit, count)
    ensures CodeFor(count, TableWords(sizes)) && Lengths(TableWords(sizes)) == sizes
  {
    hide Fits, CodeWord;
    var words := TableWords(sizes);
    forall i, j | 0 <= i < |count| && 0 <= j < |count| && i != j && count[i] > 0 && count[j] > 0
      ensures Unrelated(words[i], words[j])
    {
      CodesArePrefixFree(sizes, limit, i, j);
      CodesArePrefixFree(sizes, limit, j, i);
    }
  }

  // ----- the table builder's lengths

  /** What the table builder says about a table of counts. */
  ghost predicate Built(count: seq<nat>, order: seq<SymFreq>, lens: seq<nat>, sizes: seq<nat>, limit: nat) {
    && |sizes| == |count| && Ordered(count, order) && Sum(count) < 65536
    && MergedLengths(Keys(order), 65536, lens) && LimitedSizes(order, lens, sizes, limit)
  }

  lemma HowLimited(order: seq<SymFreq>, lens: seq<nat>, sizes: seq<nat>, limit: nat) returns (c: seq<int>)
    requires LimitedSizes(order, lens, sizes, limit)
    ensures LimitedCounts(c, |order|, lens, limit) && Counts(c) && limit < |c| && GivenOut(sizes, order, 0, LongestDown(c, limit))
  {
    c :| LimitedCounts(c, |order|, lens, limit) && GivenOut(sizes, order, 0, LongestDown(c, limit));
  }

  /** Measured lengths cost no more than any code's. */
  lemma MeasuredCost(count: seq<nat>, order: seq<SymFreq>, lens: seq<nat>, words: seq<Word>)
    requires Ordered(count, order) && Sum(count) < 65536 && MergedLengths(Keys(order), 65536, lens) && CodeFor(count, words)
    ensures |lens| == |order| && Cost(Keys(order), lens) <= Cost(count, Lengths(words))
  {
    hide Ordered, Cost, Sum, MergedLengths, CodeFor, PrefixFree;
    SameCount(Keys(order), 65536, lens);
    OrderedWeights(count, order);
    CodeAlong(count, order, words);
    OrderedCost(count, order, Lengths(words));
    if |order| >= 2 {
      MergedIsMinimal(Keys(order), 65536, lens, WordsAlong(order, words));
    } else {
      if |order| == 1 { OneLength(Keys(order), 65536, lens); }
      CostRises(Keys(order), lens, SizesAlong(order, Lengths(words)));
    }
  }

  /** Unless a length had to be limited, no prefix code for the counted symbols needs fewer bits than the table. */
  lemma NoCodeIsCheaper(count: seq<nat>, order: seq<SymFreq>, lens: seq<nat>, sizes: seq<nat>, limit: nat, words: seq<Word>)
    requires Built(count, order, lens, sizes, limit) && (lens != [] ==> lens[0] <= limit) && CodeFor(count, words)
    ensures Cost(count, sizes) <= Cost(count, Lengths(words))
  {
    hide Ordered, Cost, Sum, MergedLengths, CodeFor, LimitedCounts, GivenOut, LongestDown;
    MeasuredCost(count, order, lens, words);
    var c := HowLimited(order, lens, sizes, limit);
    SizesAreMeasured(order, sizes, c, lens, limit, 65536);
    InRange(count, order);
    OrderedCost(count, order, sizes);
    if lens != [] { MeasuredAlong(order, lens, sizes, limit); } else { assert SizesAlong(order, sizes) == lens; }
  }

  lemma MeasuredAlong(order: seq<SymFreq>, lens: seq<nat>, sizes: seq<nat>, limit: nat)
    requires MeasuredSizes(order, lens, sizes, limit) && lens != [] && lens[0] <= limit
    ensures InTable(order, |sizes|) && SizesAlong(order, sizes) == lens
  {
    forall k | 0 <= k < |order| ensures order[k].symIndex < |sizes| && sizes[order[k].symIndex] == lens[k] {
      assert HasSize(sizes, order, 0, lens, k);
    }
  }

  /** In any case a table limited to 15 bits costs little more than the shortest code of any lengths. */
  lemma LimitedTableCost(count: seq<nat>, order: seq<SymFreq>, lens: seq<nat>, sizes: seq<nat>, words: seq<Word>,
                         k: nat, extra: nat)
    requires Built(count, order, lens, sizes, LIMIT) && CodeFor(count, words)
    requires |order| <= Pow2(k) <= Pow2(LIMIT) && LastPays(k, extra)
    ensures 500 * Cost(count, sizes) <= 500 * Cost(count, Lengths(words)) + Sum(count) * (|order| + extra)
  {
    hide Ordered, Cost, Sum, MergedLengths, CodeFor, LimitedCounts, GivenOut, LongestDown, Pow2, LastPays, LimitsTo;
    SomeShare(Sum(count), |order| + extra);
    if lens == [] || lens[0] <= LIMIT {
      NoCodeIsCheaper(count, order, lens, sizes, LIMIT, words);
    } else {
      MeasuredCost(count, order, lens, words);
      OrderedWeights(count, order);
      TwoOrMore(Keys(order), lens);
      MergedDepthLimits(Keys(order), 65536, lens);
      var c := HowLimited(order, lens, sizes, LIMIT);
      var before := LimitedFrom(c, |order|, lens);
      LimitedCost(Keys(order), 65536, lens, before, c, k, extra);
      GivenOutAlong(sizes, order, LongestDown(c, LIMIT));
      OrderedCost(count, order, sizes);
    }
  }

  lemma TwoOrMore(w: seq<nat>, lens: seq<nat>)
    requires MergedLengths(w, 65536, lens) && lens != [] && lens[0] > LIMIT
    ensures |w| >= 2
  {
  }

  lemma LimitedFrom(c: seq<int>, n: nat, lens: seq<nat>) returns (before: seq<int>)
    requires n >= 2 && LimitedCounts(c, n, lens, LIMIT)
    ensures LimitsTo(before, lens, LIMIT, c)
  {
    before :| LimitsTo(before, lens, LIMIT, c);
  }

  // ----- against another table

  /** A table that the table builder has made for these counts. */
  ghost predicate WellBuilt(count: seq<nat>, sizes: seq<nat>) {
    exists order, lens :: Built(count, order, lens, sizes, LIMIT)
  }

  lemma {:induction false} FewGathered(count: seq<nat>, n: nat, k: nat)
    requires n <= |count| && k <= |count| && forall i :: n <= i < |count| ==> count[i] == 0
    ensures |Gathered(count, k, 0)| <= n
  {
    if k > n { FewGathered(count, n, k - 1); }
  }

  /** A table costs little more than any other that has the symbols that occur; these are among the first n. */
  lemma CostAgainst(count: seq<nat>, sizes: seq<nat>, n: nat, other: seq<nat>, k: nat, extra: nat)
    requires WellBuilt(count, sizes) && Covers(other, LIMIT, count)
    requires n <= |count| && forall i :: n <= i < |count| ==> count[i] == 0
    requires n <= Pow2(k) <= Pow2(LIMIT) && LastPays(k, extra)
    ensures |sizes| == |count|
    ensures 500 * Cost(count, sizes) <= 500 * Cost(count, other) + Sum(count) * (n + extra)
  {
    hide Ordered, Cost, Sum, MergedLengths, CodeFor, Covers, LimitedSizes, Gathered, Pow2, LastPays;
    var order, lens :| Built(count, order, lens, sizes, LIMIT);
    TableIsCode(other, LIMIT, count);
    OrderedWeights(count, order);
    FewGathered(count, n, |count|);
    LimitedTableCost(count, order, lens, sizes, TableWords(other), k, extra);
    TimesMost(Sum(count), |order| + extra, n + extra);
  }
}
