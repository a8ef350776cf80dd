/** A scan that the encoder cannot code: its blocks have just the symbol counts that overrun the table optimiser. */
module JpegDeepScan {
  import opened Sequences
  import opened Arithmetic
  import opened MergeOptimality
  import opened MinimumRedundancy
  import opened DeepMerge
  import opened JpegTables
  import opened JpegLimits
  import opened JpegScan
  import opened JpegEncoder

  // ----- counting flat blocks

  /** Blocks of the first component with mean zero: no DC difference depends on the block before. */
  predicate Flat(blocks: seq<CodedBlock>) {
    forall b :: b in blocks ==> IsFlat(b)
  }

  predicate IsFlat(b: CodedBlock) {
    b.component == 0 && |b.block| == 64 && b.block[0] == 0 && forall i :: 1 <= i < 64 ==> 0 <= b.block[i] < 32768
  }

  ghost function SymbolsIn(b: CodedBlock, symbol: nat): nat {
    if |b.block| == 64 then UnitCount(BlockUnits(b.block, 0), false, symbol) else 0
  }

  ghost function SymbolsInAll(blocks: seq<CodedBlock>, symbol: nat): nat {
    if blocks == [] then 0 else SymbolsIn(blocks[0], symbol) + SymbolsInAll(blocks[1..], symbol)
  }

  lemma {:induction false} FlatScan(blocks: seq<CodedBlock>, symbol: nat)
    requires Flat(blocks)
    ensures GoodScan(blocks, START)
    ensures UnitCount(ScanUnits(blocks, START, false), false, symbol) == SymbolsInAll(blocks, symbol)
  {
    hide BlockUnits, UnitCount;
    if blocks == [] {
      NoneCounted(symbol);
    } else {
      var b := blocks[0];
      assert b in blocks;
      assert IsFlat(b) && NextLast(START, b) == START;
      forall c | c in blocks[1..] ensures IsFlat(c) { assert c in blocks; }
      FlatScan(blocks[1..], symbol);
      UnitCountAppend(BlockUnits(b.block, 0), ScanUnits(blocks[1..], START, false), false, symbol);
    }
  }

  lemma NoneCounted(symbol: nat)
    ensures UnitCount([], false, symbol) == 0
  {
  }

  lemma {:induction false} CountBoth(a: seq<CodedBlock>, b: seq<CodedBlock>, symbol: nat)
    ensures SymbolsInAll(a + b, symbol) == SymbolsInAll(a, symbol) + SymbolsInAll(b, symbol)
  {
    hide SymbolsIn;
    if a == [] {
      assert a + b == b;
    } else {
      assert (a + b)[0] == a[0] && (a + b)[1..] == a[1..] + b;
      CountBoth(a[1..], b, symbol);
    }
  }

  function Copies(b: CodedBlock, n: nat): (r: seq<CodedBlock>)
    ensures |r| == n && forall i :: 0 <= i < n ==> r[i] == b
  {
    seq(n, _ => b)
  }

  lemma {:induction false} CountCopies(b: CodedBlock, n: nat, symbol: nat)
    ensures SymbolsInAll(Copies(b, n), symbol) == n * SymbolsIn(b, symbol)
  {
    hide SymbolsIn;
    if n > 0 {
      assert Copies(b, n)[1..] == Copies(b, n - 1);
      CountCopies(b, n - 1, symbol);
      assert n * SymbolsIn(b, symbol) == (n - 1) * SymbolsIn(b, symbol) + SymbolsIn(b, symbol);
    }
  }

  // ----- the blocks

  /** One or two coefficients of `size` bits, each behind `run` zeros. */
  function RunBlock(run: nat, size: nat, twice: bool): (block: seq<int>)
    requires run <= 15 && 1 <= size <= 15
    ensures |block| == 64
    ensures forall i :: 0 <= i < 64 ==>
      block[i] == if i == run + 1 || (twice && i == 2 * run + 2) then Pow2(size - 1) else 0
  {
    seq(64, i requires 0 <= i < 64 => if i == run + 1 || (twice && i == 2 * run + 2) then Pow2(size - 1) else 0)
  }

  lemma {:induction false} SkipZeros(block: seq<int>, i: nat, j: nat, run: nat)
    requires i <= j <= |block| && forall k :: i <= k < j ==> block[k] == 0
    ensures AcUnits(block, i, run) == AcUnits(block, j, run + (j - i))
    decreases j - i
  {
    if i < j { SkipZeros(block, i + 1, j, run + 1); }
  }

  /** Behind `run` zeros a coefficient, and then the rest. */
  lemma OneRun(block: seq<int>, i: nat, run: nat, size: nat)
    requires run <= 15 && size >= 1 && i + run < |block| && block[i + run] == Pow2(size - 1)
    requires forall k :: i <= k < i + run ==> block[k] == 0
    ensures AcUnits(block, i, 0) == [Unit(false, 16 * run + size, Pow2(size - 1))] + AcUnits(block, i + run + 1, 0)
  {
    var v := Pow2(size - 1);
    SkipZeros(block, i, i + run, 0);
    SizeOfPower(size);
    assert ZeroRuns(run / 16) == [];
    assert [] + [Unit(false, 16 * run + size, v)] == [Unit(false, 16 * run + size, v)];
  }

  lemma SizeOfPower(size: nat)
    requires size >= 1
    ensures BitLength(Abs(Pow2(size - 1))) == size
  {
    var v := Pow2(size - 1);
    var n := BitLength(v);
    BitLengthBounds(v);
    BitLengthAtMost(v, size);
    if n < size { Pow2Monotone(n, size - 1); }
  }

  lemma OnlyZerosLeft(block: seq<int>, i: nat)
    requires i < |block| && forall k :: i <= k < |block| ==> block[k] == 0
    ensures AcUnits(block, i, 0) == [Unit(false, EOB, 0)]
  {
    SkipZeros(block, i, |block|, 0);
  }

  /** The symbols of the first pass: the coefficients', and the end of the block. */
  lemma RunBlockUnits(run: nat, size: nat, twice: bool)
    requires run <= 15 && 1 <= size <= 15
    ensures var u := Unit(false, 16 * run + size, Pow2(size - 1));
      BlockUnits(RunBlock(run, size, twice), 0)
      == [Unit(true, 0, 0)] + ((if twice then [u, u] else [u]) + [Unit(false, EOB, 0)])
  {
    hide AcUnits, RunBlock;
    var block, u := RunBlock(run, size, twice), Unit(false, 16 * run + size, Pow2(size - 1));
    OneRun(block, 1, run, size);
    if twice {
      OneRun(block, run + 2, run, size);
      OnlyZerosLeft(block, 2 * run + 3);
      assert [u] + ([u] + [Unit(false, EOB, 0)]) == [u, u] + [Unit(false, EOB, 0)];
    } else {
      OnlyZerosLeft(block, run + 2);
    }
  }

  lemma {:induction false} RunBlockCount(run: nat, size: nat, twice: bool, symbol: nat)
    requires run <= 15 && 1 <= size <= 15
    ensures SymbolsIn(CodedBlock(0, RunBlock(run, size, twice)), symbol) ==
      (if symbol == 16 * run + size then if twice then 2 else 1 else 0) + if symbol == EOB then 1 else 0
  {
    hide BlockUnits;
    RunBlockUnits(run, size, twice);
    var u, dc, eob := Unit(false, 16 * run + size, Pow2(size - 1)), Unit(true, 0, 0), Unit(false, EOB, 0);
    var middle := if twice then [u, u] else [u];
    UnitCountAppend([dc], middle + [eob], false, symbol);
    UnitCountAppend(middle, [eob], false, symbol);
    UnitCountAppend([u], [u], false, symbol);
    CountSingle(dc, symbol);
    CountSingle(u, symbol);
    CountSingle(eob, symbol);
    assert [u] + [u] == [u, u];
  }

  lemma CountSingle(u: Unit, symbol: nat)
    ensures UnitCount([u], false, symbol) == if !u.dc && u.symbol == symbol then 1 else 0
  {
    assert [u][..0] == [];
  }

  function ZeroBlock(): (b: CodedBlock)
    ensures b.component == 0 && |b.block| == 64 && forall i :: 0 <= i < 64 ==> b.block[i] == 0
  {
    CodedBlock(0, seq(64, _ => 0))
  }

  lemma ZeroBlockCount(symbol: nat)
    ensures SymbolsIn(ZeroBlock(), symbol) == if symbol == EOB then 1 else 0
  {
    hide AcUnits;
    var dc, eob := Unit(true, 0, 0), Unit(false, EOB, 0);
    OnlyZerosLeft(ZeroBlock().block, 1);
    UnitCountAppend([dc], [eob], false, symbol);
    CountSingle(dc, symbol);
    CountSingle(eob, symbol);
  }

  // ----- the scan

  /** The block for the k-th weight. */
  function WeightBlock(k: nat): CodedBlock
    requires 1 <= k <= 36
  {
    CodedBlock(0, RunBlock((k - 1) / 10, (k - 1) % 10 + 1, k >= 9))
  }

  /** How many of them. */
  function Times(k: nat): nat { if k < 9 then 1 else Fib(k - 5) }

  lemma WeightBlockCount(k: nat, symbol: nat)
    requires 1 <= k <= 36 && symbol < 256
    ensures Times(k) * SymbolsIn(WeightBlock(k), symbol) ==
      if symbol == EOB then Times(k) else if WeightOf(symbol) == k then DEEP[k] else 0
  {
    hide Fib, SymbolsIn, RunBlock;
    var run, size := (k - 1) / 10, (k - 1) % 10 + 1;
    RunBlockCount(run, size, k >= 9, symbol);
    if symbol != EOB { SymbolOfWeight(k, symbol); }
  }

  lemma SymbolOfWeight(k: nat, symbol: nat)
    requires 1 <= k <= 36 && symbol < 256 && symbol != EOB
    ensures WeightOf(symbol) == k <==> symbol == 16 * ((k - 1) / 10) + ((k - 1) % 10 + 1)
  {
    var run, size := DivParts(symbol, 16);
    var r, s := DivParts(k - 1, 10);
    DivUnique(16 * r + (s + 1), 16, r, s + 1);
    if WeightOf(symbol) == k { DivUnique(k - 1, 10, run, size - 1); }
  }

  /** The blocks for the first weights. */
  function WeightBlocks(k: nat): (blocks: seq<CodedBlock>)
    requires k <= 36
  {
    if k == 0 then [] else WeightBlocks(k - 1) + Copies(WeightBlock(k), Times(k))
  }

  lemma {:induction false} WeightBlocksCount(k: nat, symbol: nat)
    requires k <= 36 && symbol < 256
    ensures SymbolsInAll(WeightBlocks(k), symbol) ==
      if symbol == EOB then |WeightBlocks(k)| else if 1 <= WeightOf(symbol) <= k then DEEP[WeightOf(symbol)] else 0
  {
    hide WeightBlock, Times, SymbolsIn, WeightOf;
    if k > 0 {
      WeightBlocksCount(k - 1, symbol);
      CountBoth(WeightBlocks(k - 1), Copies(WeightBlock(k), Times(k)), symbol);
      CountCopies(WeightBlock(k), Times(k), symbol);
      WeightBlockCount(k, symbol);
    }
  }

  lemma {:induction false} HowManyBlocks(k: nat)
    requires k <= 36
    ensures |WeightBlocks(k)| == if k < 8 then k else Fib(k - 3) + 3
  {
    hide WeightBlock;
    if k > 0 {
      HowManyBlocks(k - 1);
      SmallFibs();
      if k >= 9 { FibSteps(k - 3); }
    }
  }

  lemma {:induction false} WeightBlocksFlat(k: nat)
    requires k <= 36
    ensures Flat(WeightBlocks(k))
  {
    hide Times;
    if k > 0 {
      WeightBlocksFlat(k - 1);
      WeightBlockFlat(k);
    }
  }

  lemma WeightBlockFlat(k: nat)
    requires 1 <= k <= 36
    ensures IsFlat(WeightBlock(k))
  {
    Pow2Monotone((k - 1) % 10, 9);
    assert Pow2(4) == 16 && Pow2(8) == 256 && Pow2(9) == 512;
  }

  /** All weights but the last; and blocks without coefficients, to bring the ends of blocks to the last. */
  function DeepScan(): seq<CodedBlock> {
    WeightBlocks(36) + Copies(ZeroBlock(), 832037)
  }

  lemma DeepScanFlat()
    ensures Flat(DeepScan()) && |DeepScan()| == 4356618 == DEEP[37]
  {
    hide WeightBlocks, Fib;
    WeightBlocksFlat(36);
    HowManyBlocks(36);
    BigFibs();
  }

  lemma BigFibs()
    ensures Fib(33) == 3524578 && Fib(32) == 2178309
  {
    FibValues();
    FibSteps(32);
    FibSteps(33);
    assert Fib(29) == 514229 && Fib(30) == 832040 by { FibValues(); }
  }

  lemma {:induction false} DeepScanCounts(symbol: nat)
    requires symbol < 256
    ensures SymbolsInAll(DeepScan(), symbol) == DeepCounts()[symbol]
  {
    hide WeightBlocks, SymbolsIn, Fib, ZeroBlock, DEEP;
    DeepScanFlat();
    WeightBlocksCount(36, symbol);
    CountBoth(WeightBlocks(36), Copies(ZeroBlock(), 832037), symbol);
    CountCopies(ZeroBlock(), 832037, symbol);
    ZeroBlockCount(symbol);
  }

  lemma DeepScanTallied()
    ensures GoodScan(DeepScan(), START) && AcCounts(DeepScan(), false) == DeepCounts()
  {
    hide DeepScan, ScanUnits, UnitCount, GoodScan, DeepCounts;
    DeepScanFlat();
    FlatScan(DeepScan(), 0);
    forall symbol: nat | symbol < 256
      ensures UnitCount(ScanUnits(DeepScan(), START, false), false, symbol) == DeepCounts()[symbol]
    {
      FlatScan(DeepScan(), symbol);
      DeepScanCounts(symbol);
    }
  }

  lemma AllInTable(blocks: seq<CodedBlock>, others: bool)
    requires GoodScan(blocks, START)
    ensures Sum(AcCounts(blocks, others)) == KindCount(ScanUnits(blocks, START, others), false)
  {
    hide Sum, KindCount, ScanUnits, GoodScan, UnitCount;
    ScanUnitsSmall(blocks, START, others);
    TotalOfCounts(ScanUnits(blocks, START, others), false, AC_CODES);
  }

  /** A scan of 4356618 blocks with quantised coefficients of at most ten bits: its AC symbols are one too many for the
      caller's condition, and they do overrun the histogram. The encoder does not code it. */
  lemma DeepScanOverruns()
    ensures var blocks := DeepScan();
      && GoodScan(blocks, START) && OneComponent(blocks) && Countable(blocks) && |blocks| == 4356618
      && AcCounts(blocks, false) == DeepCounts() && !Encodable(blocks, 1)
      && KindCount(ScanUnits(blocks, START, false), false) + 1 == DEEP_TOTAL
  {
    hide DeepScan, ScanUnits, KindCount, GoodScan, Countable, Overruns, DeepCounts, Sum, AcCounts;
    DeepScanFlat();
    DeepScanTallied();
    ImagesAreCountable(DeepScan());
    DeepOverruns();
    AllInTable(DeepScan(), false);
  }
}
