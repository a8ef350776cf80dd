/** Symbol counts for which the encoder's table optimiser needs a code of more than 32 bits. */
module JpegLimits {
  import opened Arithmetic
  import opened SymbolCounts
  import opened RadixSort
  import opened MergeWeights
  import opened MergeOptimality
  import opened MinimumRedundancy
  import opened LengthLimit
  import opened CodeLengths
  import opened MergeDetermined
  import opened DeepMerge
  import opened JpegTables

  /** The weights of a code of 33 bits. The dummy has the first. */
  const DEEP: seq<nat> := DeepWeights(29)

  /** The end of a block has the last weight; the others belong to coefficients of one to ten bits behind zero to three
      zeros, ten of them in a row, and six in the last. */
  function WeightOf(symbol: nat): (k: nat)
    ensures k < 38
  {
    if symbol == 0 then 37 else WeightAt(symbol / 16, symbol % 16)
  }

  function WeightAt(run: nat, size: nat): nat {
    if 1 <= size <= 10 && 10 * run + size <= 36 then 10 * run + size else 0
  }

  /** How often each AC symbol occurs: 37 of them do. */
  function DeepCounts(): (count: seq<nat>)
    ensures |count| == 256
    ensures forall symbol :: 0 <= symbol < 256 ==> count[symbol] == if WeightOf(symbol) > 0 then DEEP[WeightOf(symbol)] else 0
  {
    seq(256, symbol requires 0 <= symbol < 256 => if WeightOf(symbol) > 0 then DEEP[WeightOf(symbol)] else 0)
  }

  /** How many weights the symbols up to this one have, not counting the first symbol's. */
  function WeightsTo(symbol: nat): (n: nat)
    ensures n <= 36
  {
    Least(36, 10 * (symbol / 16) + Least(symbol % 16, 10))
  }

  lemma WeightsStep(symbol: nat)
    requires symbol > 0
    ensures WeightOf(symbol) > 0 ==> WeightOf(symbol) == WeightsTo(symbol) == WeightsTo(symbol - 1) + 1
    ensures WeightOf(symbol) == 0 ==> WeightsTo(symbol) == WeightsTo(symbol - 1)
  {
    var run, size := DivParts(symbol, 16);
    if size == 0 {
      DivUnique(symbol - 1, 16, run - 1, 15);
    } else {
      DivUnique(symbol - 1, 16, run, size - 1);
    }
  }

  /** Gathered in the order of the symbols. */
  lemma {:induction false} DeepKeys(k: nat)
    requires 0 < k <= 256
    ensures Keys(Gathered(DeepCounts(), k, 1)) == [DEEP[37]] + DEEP[1..WeightsTo(k - 1) + 1]
  {
    hide Gathered, WeightsTo, WeightOf, DeepCounts, DEEP, Keys;
    var count, g := DeepCounts(), Gathered(DeepCounts(), k - 1, 1);
    DeepShape();
    GatheredStep(count, k, 1);
    KeysSnoc(g, SymFreq(count[k - 1], k));
    if k == 1 {
      FirstSymbol();
      NothingGathered(count);
    } else {
      WeightsStep(k - 1);
      DeepKeys(k - 1);
      if WeightOf(k - 1) > 0 { OneMoreWeight(DEEP, WeightOf(k - 1)); }
    }
  }

  lemma DeepShape()
    ensures |DEEP| == 38 && forall l :: 0 <= l < 38 ==> DEEP[l] >= 1
  {
    DeepWeightsSorted(29);
  }

  lemma OneMoreWeight(w: seq<nat>, k: nat)
    requires 1 <= k < |w|
    ensures ([w[|w| - 1]] + w[1..k]) + [w[k]] == [w[|w| - 1]] + w[1..k + 1]
  {
  }

  lemma FirstSymbol()
    ensures WeightOf(0) == 37 && WeightsTo(0) == 0
  {
  }

  lemma NothingGathered(count: seq<nat>)
    ensures Gathered(count, 0, 1) == [] && Keys([]) == []
  {
  }

  lemma SameWeights(w: seq<nat>)
    requires |w| == 38
    ensures multiset([w[0]] + ([w[37]] + w[1..37])) == multiset(w)
  {
    assert w == [w[0]] + (w[1..37] + [w[37]]);
    assert multiset([w[0]] + ([w[37]] + w[1..37])) == multiset{w[0]} + (multiset{w[37]} + multiset(w[1..37]));
    assert multiset([w[0]] + (w[1..37] + [w[37]])) == multiset{w[0]} + (multiset(w[1..37]) + multiset{w[37]});
  }

  lemma DeepRecords()
    ensures multiset(Keys(WithDummy(DeepCounts()))) == multiset(DEEP)
    ensures Sum(DEEP) == DEEP_TOTAL && |WithDummy(DeepCounts())| == 38
  {
    hide Sum, Fib, Gathered, DeepCounts;
    var g := Gathered(DeepCounts(), 256, 1);
    DeepKeys(256);
    assert Keys(g) == [DEEP[37]] + DEEP[1..37];
    assert Keys(WithDummy(DeepCounts())) == [1] + Keys(g);
    SameWeights(DEEP);
    DeepTotal(29);
    FibValues();
  }

  /** With these counts, of just the least total for it, the longest measured length is 33: one more than the histogram of
      lengths has room for. */
  lemma DeepTable(order: seq<SymFreq>, lens: seq<nat>)
    requires Measured(DeepCounts(), order, lens)
    ensures lens[0] == MAX_HUFF_CODESIZE + 1 && Sum(DeepCounts()) + 1 == DEEP_TOTAL
  {
    hide Sum, Fib, DeepCounts, WithDummy, MergedLengths, StablySorted, Sorted;
    DeepRecords();
    SortedKeys(WithDummy(DeepCounts()), order);
    KeysPermuted(WithDummy(DeepCounts()), order);
    DeepWeightsSorted(29);
    SortedIsUnique(Keys(order), DEEP);
    DummySum(DeepCounts());
    DeepTotal(29);
    FibValues();
    DeepCode(29, TWO_TO_32, lens);
  }

  lemma WeightFits(a: seq<nat>, w: seq<nat>, i: nat)
    requires multiset(a) == multiset(w) && i < |a|
    ensures a[i] <= Sum(w)
  {
    hide Sum;
    assert a[i] in multiset(a);
    assert a[i] in w;
    var k :| 0 <= k < |w| && w[k] == a[i];
    SumPart(w, k);
  }

  /** The records can be sorted and measured, so these counts do overrun the histogram. */
  lemma DeepOverruns()
    ensures Overruns(DeepCounts()) && Sum(DeepCounts()) + 1 == DEEP_TOTAL
  {
    hide Sum, Fib, DeepCounts, WithDummy, MergedLengths, StablySorted;
    var s := WithDummy(DeepCounts());
    DeepRecords();
    FourBytes();
    Pow32();
    forall i | 0 <= i < |s| ensures s[i].key < Pow256(4) { WeightFits(Keys(s), DEEP, i); }
    var order, lens := MeasureExists(s, 4, TWO_TO_32);
    SortedKeys(s, order);
    AsMany(Keys(order), TWO_TO_32, lens);
    assert Measured(DeepCounts(), order, lens);
    DeepTable(order, lens);
  }
}
