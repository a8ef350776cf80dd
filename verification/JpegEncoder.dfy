/** The encoder's two passes over the blocks of an image: all blocks are counted, four tables are built from the counts, all
    blocks are put out with them; and a decoder that has the tables reads the blocks back. */
module JpegEncoder {
  import opened Sequences
  import opened Arithmetic
  import opened PrefixCodes
  import opened CanonicalCodes
  import opened MinimumRedundancy
  import opened LengthLimit
  import opened CodeLengths
  import opened JpegTables
  import opened JpegBits
  import opened JpegScan

  const DC_CODES: nat := 12
  const AC_CODES: nat := 256
  const START: seq<int> := [0, 0, 0]

  // ----- what the symbols of a scan can be

  /** How many symbols of one kind there are. */
  function KindCount(units: seq<Unit>, dc: bool): nat {
    if units == [] then 0 else KindCount(units[..|units| - 1], dc) + if units[|units| - 1].dc == dc then 1 else 0
  }

  function UnitCounts(units: seq<Unit>, dc: bool, n: nat): (r: seq<nat>)
    ensures |r| == n && forall sym :: 0 <= sym < n ==> r[sym] == UnitCount(units, dc, sym)
  {
    seq(n, sym requires 0 <= sym < n => UnitCount(units, dc, sym))
  }

  lemma {:induction false} TotalOfCounts(units: seq<Unit>, dc: bool, n: nat)
    ensures Sum(UnitCounts(units, dc, n)) <= KindCount(units, dc)
    ensures (forall k :: 0 <= k < |units| && units[k].dc == dc ==> units[k].symbol < n)
      ==> Sum(UnitCounts(units, dc, n)) == KindCount(units, dc)
  {
    hide Sum;
    if units == [] {
      SumConstant(UnitCounts(units, dc, n), 0);
    } else {
      var init, u := units[..|units| - 1], units[|units| - 1];
      TotalOfCounts(init, dc, n);
      var before, after := UnitCounts(init, dc, n), UnitCounts(units, dc, n);
      if u.dc == dc && u.symbol < n {
        SumUpdate(before, u.symbol, before[u.symbol] + 1);
        assert after == before[u.symbol := before[u.symbol] + 1];
      } else {
        assert after == before;
      }
    }
  }

  lemma {:induction false} NeverCounted(units: seq<Unit>, symbol: nat)
    requires (forall k :: 0 <= k < |units| ==> SmallUnit(units[k]))
    requires symbol % 16 == 0 && symbol != EOB && symbol != ZRL
    ensures UnitCount(units, false, symbol) == 0
  {
    if units != [] {
      assert SmallUnit(units[|units| - 1]);
      NeverCounted(units[..|units| - 1], symbol);
    }
  }

  lemma {:induction false} GatheredGrows(count: seq<nat>, k: nat, n: nat)
    requires k + n <= |count|
    ensures |Gathered(count, k, 1)| <= |Gathered(count, k + n, 1)| <= |Gathered(count, k, 1)| + n
  {
    if n > 0 { GatheredGrows(count, k, n - 1); }
  }

  /** Of every sixteen symbols but the first and the last at most fifteen occur: 242 in all. */
  lemma {:induction false} FewRows(count: seq<nat>, rows: nat)
    requires |count| == AC_CODES && rows <= 16
    requires forall r :: 1 <= r < 15 ==> count[16 * r] == 0
    ensures |Gathered(count, 16 * rows, 1)| <= 15 * rows + (if rows >= 1 then 1 else 0) + (if rows == 16 then 1 else 0)
  {
    if rows > 0 {
      var k := 16 * (rows - 1);
      FewRows(count, rows - 1);
      GatheredGrows(count, k, 16);
      if 1 <= rows - 1 < 15 {
        assert |Gathered(count, k + 1, 1)| == |Gathered(count, k, 1)|;
        GatheredGrows(count, k + 1, 15);
      }
    }
  }

  /** What the table optimiser asks for: no more than 254 symbols, and not too many times. */
  lemma TableHasRoom(units: seq<Unit>, dcCount: seq<nat>, acCount: seq<nat>)
    requires CountsAll(units, dcCount, acCount) && forall k :: 0 <= k < |units| ==> SmallUnit(units[k])
    ensures |Gathered(dcCount, DC_CODES, 1)| <= 12 && |Gathered(acCount, AC_CODES, 1)| <= 242
    ensures Sum(dcCount) <= KindCount(units, true) && Sum(acCount) <= KindCount(units, false)
  {
    hide Sum, Gathered, UnitCount;
    TotalOfCounts(units, true, DC_CODES);
    TotalOfCounts(units, false, AC_CODES);
    assert dcCount == UnitCounts(units, true, DC_CODES) && acCount == UnitCounts(units, false, AC_CODES);
    forall r | 1 <= r < 15 ensures acCount[16 * r] == 0 { NeverCounted(units, 16 * r); }
    FewRows(acCount, 16);
  }

  // ----- the first pass

  ghost predicate Counted(blocks: seq<CodedBlock>, i: nat, lasts: seq<int>, done: seq<Unit>, others: bool)
    requires i <= |blocks| && |lasts| == 3
  {
    && GoodScan(blocks, START) && GoodScan(blocks[i..], lasts)
    && done + ScanUnits(blocks[i..], lasts, others) == ScanUnits(blocks, START, others)
  }

  lemma CountedNext(blocks: seq<CodedBlock>, i: nat, lasts: seq<int>, done: seq<Unit>, others: bool)
    requires i < |blocks| && |lasts| == 3 && Counted(blocks, i, lasts, done, others)
    ensures var b := blocks[i];
      && b.component < 3 && GoodBlock(b.block, lasts[b.component]) && |b.block| == 64
      && Counted(blocks, i + 1, NextLast(lasts, b),
                 done + (if (b.component > 0) == others then BlockUnits(b.block, lasts[b.component]) else []), others)
  {
    hide BlockUnits;
    var b := blocks[i];
    assert blocks[i..][0] == b && blocks[i..][1..] == blocks[i + 1..];
    JoinThree(done, if (b.component > 0) == others then BlockUnits(b.block, lasts[b.component]) else [],
              ScanUnits(blocks[i + 1..], NextLast(lasts, b), others));
  }

  lemma CountedStarts(blocks: seq<CodedBlock>, others: bool)
    requires GoodScan(blocks, START)
    ensures Counted(blocks, 0, START, [], others)
  {
    assert blocks[0..] == blocks;
    assert [] + ScanUnits(blocks, START, others) == ScanUnits(blocks, START, others);
  }

  lemma CountedEnds(blocks: seq<CodedBlock>, lasts: seq<int>, done: seq<Unit>, others: bool)
    requires |lasts| == 3 && Counted(blocks, |blocks|, lasts, done, others)
    ensures done == ScanUnits(blocks, START, others)
  {
    assert blocks[|blocks|..] == [];
    assert done + [] == done;
  }

  /** Counts for all 256 symbols, from none. */
  ghost predicate CountsOfUnits(count: seq<nat>, units: seq<Unit>, dc: bool) {
    |count| == 256 && forall sym :: 0 <= sym < 256 ==> count[sym] == UnitCount(units, dc, sym)
  }

  lemma CountsMore(before: seq<nat>, after: seq<nat>, done: seq<Unit>, units: seq<Unit>, dc: bool)
    requires CountsOfUnits(before, done, dc) && CountedUp(before, after, units, dc)
    ensures CountsOfUnits(after, done + units, dc)
  {
    hide UnitCount;
    forall sym | 0 <= sym < 256 ensures after[sym] == UnitCount(done + units, dc, sym) {
      UnitCountAppend(done, units, dc, sym);
    }
  }

  method LoadBlock(block: array<int>, coefficients: seq<int>)
    requires block.Length == 64 == |coefficients|
    modifies block
    ensures block[..] == coefficients
  {
    for i := 0 to 64
      modifies block
      invariant block[..i] == coefficients[..i]
    {
      block[i] := coefficients[i];
      assert coefficients[..i + 1] == coefficients[..i] + [coefficients[i]];
    }
    assert coefficients[..64] == coefficients;
  }

  /** Counts the symbols of all blocks. */
  method CountScan(blocks: seq<CodedBlock>, dcCount: array<nat>, acCount: array<nat>, otherDc: array<nat>, otherAc: array<nat>)
    requires GoodScan(blocks, START)
    requires dcCount.Length == acCount.Length == otherDc.Length == otherAc.Length == 256
    requires dcCount !in {acCount, otherDc, otherAc} && acCount !in {otherDc, otherAc} && otherDc != otherAc
    requires forall i :: 0 <= i < 256 ==> dcCount[i] == acCount[i] == otherDc[i] == otherAc[i] == 0
    modifies dcCount, acCount, otherDc, otherAc
    ensures CountsAll(ScanUnits(blocks, START, false), dcCount[..DC_CODES], acCount[..])
    ensures CountsAll(ScanUnits(blocks, START, true), otherDc[..DC_CODES], otherAc[..])
  {
    hide GoodScan, ScanUnits, BlockUnits, UnitCount, CountedUp, GoodBlock;
    var lastDc, block := new int[3](_ => 0), new int[64](_ => 0);
    ghost var first, other: seq<Unit> := [], [];
    NoUnits();
    assert lastDc[..] == START;
    CountedStarts(blocks, false);
    CountedStarts(blocks, true);
    hide Counted, CountsOfUnits;
    for i := 0 to |blocks|
      invariant Counted(blocks, i, lastDc[..], first, false) && Counted(blocks, i, lastDc[..], other, true)
      invariant CountsOfUnits(dcCount[..], first, true) && CountsOfUnits(acCount[..], first, false)
      invariant CountsOfUnits(otherDc[..], other, true) && CountsOfUnits(otherAc[..], other, false)
    {
      ghost var b, lasts := blocks[i], lastDc[..];
      CountedNext(blocks, i, lasts, first, false);
      CountedNext(blocks, i, lasts, other, true);
      LoadBlock(block, blocks[i].block);
      ghost var units := BlockUnits(b.block, lasts[b.component]);
      ghost var d, a, od, oa := dcCount[..], acCount[..], otherDc[..], otherAc[..];
      if blocks[i].component > 0 {
        CodeCoefficientsPassOne(block, lastDc, blocks[i].component, otherDc, otherAc);
        CountsMore(od, otherDc[..], other, units, true);
        CountsMore(oa, otherAc[..], other, units, false);
        assert dcCount[..] == d && acCount[..] == a && first + [] == first;
        other := other + units;
      } else {
        CodeCoefficientsPassOne(block, lastDc, blocks[i].component, dcCount, acCount);
        CountsMore(d, dcCount[..], first, units, true);
        CountsMore(a, acCount[..], first, units, false);
        assert otherDc[..] == od && otherAc[..] == oa && other + [] == other;
        first := first + units;
      }
    }
    CountedEnds(blocks, lastDc[..], first, false);
    CountedEnds(blocks, lastDc[..], other, true);
    AllCounted(first, dcCount[..], acCount[..]);
    AllCounted(other, otherDc[..], otherAc[..]);
    assert dcCount[..][..DC_CODES] == dcCount[..DC_CODES] && otherDc[..][..DC_CODES] == otherDc[..DC_CODES];
  }

  lemma NoUnits()
    ensures forall count: seq<nat>, dc: bool :: |count| == 256 && (forall i :: 0 <= i < 256 ==> count[i] == 0) ==> CountsOfUnits(count, [], dc)
  {
  }

  lemma AllCounted(units: seq<Unit>, dcCount: seq<nat>, acCount: seq<nat>)
    requires CountsOfUnits(dcCount, units, true) && CountsOfUnits(acCount, units, false)
    ensures CountsAll(units, dcCount[..DC_CODES], acCount)
  {
    hide UnitCount;
  }

  // ----- the tables

  /** One of the four table numbers: its counts, its list of sizes and symbols, and its codes by symbol. */
  class TableSlot {
    const count: array<nat>
    const bits: array<nat>
    const val: array<nat>
    const codes: array<nat>
    const codeSizes: array<nat>

    ghost predicate Separate() {
      && count.Length == val.Length == codes.Length == codeSizes.Length == 256 && bits.Length == 17
      && count !in {bits, val, codes, codeSizes} && bits !in {val, codes, codeSizes} && val !in {codes, codeSizes}
      && codes != codeSizes
    }

    constructor ()
      ensures Separate() && fresh(count) && fresh(bits) && fresh(val) && fresh(codes) && fresh(codeSizes)
      ensures forall i :: 0 <= i < 256 ==> count[i] == 0
    {
      count, bits, val := new nat[256](_ => 0), new nat[17](_ => 0), new nat[256](_ => 0);
      codes, codeSizes := new nat[256](_ => 0), new nat[256](_ => 0);
    }

    /** The list for the counted symbols, if the optimiser can measure them. */
    method Optimize(tableLen: nat) returns (fits: bool)
      requires Separate() && tableLen <= 256
      requires |Gathered(count[..tableLen], tableLen, 1)| <= 254 && FourByteCounts(count[..tableLen])
      modifies bits, val
      ensures fits <==> !Overruns(count[..tableLen])
      ensures fits ==> JpegTable(count[..tableLen], bits[..], val[..])
    {
      fits := OptimizeHuffmanTable(count, tableLen, bits, val);
    }

    /** The codes for the list. */
    method Compute(tableLen: nat) returns (ghost t: Table)
      requires Separate() && tableLen <= 256 && JpegTable(count[..tableLen], bits[..], val[..])
      modifies codes, codeSizes
      ensures t == Table(Sizes(bits[..]), val[..], codes[..], codeSizes[..]) && BuiltFrom(t, count[..tableLen], bits[..])
      ensures HoldsTable(codes, codeSizes, t)
    {
      hide GoodWords, Sizes, TableCodes;
      ghost var counts, b, v := count[..tableLen], bits[..], val[..];
      ListedFits(counts, b, v);
      ComputeHuffmanTable(codes, codeSizes, bits, val);
      t := Table(Sizes(b), v, codes[..], codeSizes[..]);
      assert count[..tableLen] == counts && bits[..] == b && val[..] == v;
      BuiltIsOk(t, counts, b);
    }
  }

  lemma ListedFits(count: seq<nat>, bits: seq<nat>, val: seq<nat>)
    requires JpegTable(count, bits, val) && |count| <= 256 && |val| == 256
    ensures |Sizes(bits)| <= 256
    ensures forall p :: 0 <= p < |Sizes(bits)| ==> val[p] < 256
    ensures forall p, q :: 0 <= p < q < |Sizes(bits)| ==> val[p] != val[q]
  {
    hide GoodWords, Sizes;
  }

  // ----- the second pass

  ghost predicate PutSoFar(blocks: seq<CodedBlock>, i: nat, lasts: seq<int>, put: Word, t: Tables)
    requires i <= |blocks| && |lasts| == 3
  {
    && GoodScan(blocks, START) && ScanCoded(blocks, START, t)
    && GoodScan(blocks[i..], lasts) && ScanCoded(blocks[i..], lasts, t)
    && put + ScanBits(blocks[i..], lasts, t) == ScanBits(blocks, START, t)
  }

  lemma PutNext(blocks: seq<CodedBlock>, i: nat, lasts: seq<int>, put: Word, t: Tables)
    requires i < |blocks| && |lasts| == 3 && PutSoFar(blocks, i, lasts, put, t)
    ensures var b := blocks[i];
      && b.component < 3 && GoodBlock(b.block, lasts[b.component]) && |b.block| == 64
      && AllCoded(BlockUnits(b.block, lasts[b.component]), DcTable(t, b.component), AcTable(t, b.component))
      && PutSoFar(blocks, i + 1, NextLast(lasts, b), put
           + UnitsBits(BlockUnits(b.block, lasts[b.component]), DcTable(t, b.component), AcTable(t, b.component)), t)
  {
    hide BlockUnits, AllCoded, ScanCoded, UnitsBits;
    var b := blocks[i];
    assert blocks[i..][0] == b && blocks[i..][1..] == blocks[i + 1..];
    ScanCodedHead(blocks[i..], lasts, t);
    JoinThree(put, UnitsBits(BlockUnits(b.block, lasts[b.component]), DcTable(t, b.component), AcTable(t, b.component)),
              ScanBits(blocks[i + 1..], NextLast(lasts, b), t));
  }

  lemma PutStarts(blocks: seq<CodedBlock>, t: Tables)
    requires GoodScan(blocks, START) && ScanCoded(blocks, START, t)
    ensures PutSoFar(blocks, 0, START, [], t)
  {
    hide ScanCoded, ScanBits;
    assert blocks[0..] == blocks;
    assert [] + ScanBits(blocks, START, t) == ScanBits(blocks, START, t);
  }

  lemma PutEnds(blocks: seq<CodedBlock>, lasts: seq<int>, put: Word, t: Tables)
    requires |lasts| == 3 && PutSoFar(blocks, |blocks|, lasts, put, t)
    ensures put == ScanBits(blocks, START, t)
  {
    hide ScanCoded;
    assert blocks[|blocks|..] == [];
    assert put + [] == put;
  }

  /** Puts out the symbols of all blocks, the first component with one pair of tables, the others with the other. */
  method PutScan(blocks: seq<CodedBlock>, dc: TableSlot, ac: TableSlot, otherDc: TableSlot, otherAc: TableSlot, w: ScanWriter,
                 ghost t: Tables)
    requires GoodScan(blocks, START) && ScanCoded(blocks, START, t) && w.Valid() && w.Put() == []
    requires w.outBuf !in {dc.codes, dc.codeSizes, ac.codes, ac.codeSizes}
    requires w.outBuf !in {otherDc.codes, otherDc.codeSizes, otherAc.codes, otherAc.codeSizes}
    requires HoldsTable(dc.codes, dc.codeSizes, t.dc) && HoldsTable(ac.codes, ac.codeSizes, t.ac)
    requires (exists b :: b in blocks && b.component > 0) ==>
      HoldsTable(otherDc.codes, otherDc.codeSizes, t.otherDc) && HoldsTable(otherAc.codes, otherAc.codeSizes, t.otherAc)
    modifies w, w.outBuf
    ensures w.Valid() && w.Put() == ScanBits(blocks, START, t)
  {
    hide GoodScan, ScanCoded, BlockUnits, GoodBlock, HoldsTable, AllCoded, UnitsBits, ScanBits, ScanWriter.Valid, ScanWriter.Put,
      UnitCoded, Bits, ByteBits;
    var lastDc, block := new int[3](_ => 0), new int[64](_ => 0);
    assert lastDc[..] == START;
    PutStarts(blocks, t);
    hide PutSoFar;
    ghost var more := exists b :: b in blocks && b.component > 0;
    for i := 0 to |blocks|
      invariant w.Valid() && PutSoFar(blocks, i, lastDc[..], w.Put(), t)
      invariant HoldsTable(dc.codes, dc.codeSizes, t.dc) && HoldsTable(ac.codes, ac.codeSizes, t.ac)
      invariant more ==>
        HoldsTable(otherDc.codes, otherDc.codeSizes, t.otherDc) && HoldsTable(otherAc.codes, otherAc.codeSizes, t.otherAc)
    {
      var c := blocks[i].component;
      assert c > 0 ==> blocks[i] in blocks;
      PutNext(blocks, i, lastDc[..], w.Put(), t);
      LoadBlock(block, blocks[i].block);
      var d, a := if c > 0 then otherDc else dc, if c > 0 then otherAc else ac;
      CodeCoefficientsPassTwo(block, lastDc, c, d.codes, d.codeSizes, a.codes, a.codeSizes, w, DcTable(t, c), AcTable(t, c));
    }
    PutEnds(blocks, lastDc[..], w.Put(), t);
  }

  // ----- both passes

  ghost predicate Disjoint(dc: TableSlot, ac: TableSlot) {
    dc.Separate() && ac.Separate() &&
    {dc.count, dc.bits, dc.val, dc.codes, dc.codeSizes} !! {ac.count, ac.bits, ac.val, ac.codes, ac.codeSizes}
  }

  /** The lists of one pair of tables match the counts. */
  ghost predicate Optimized(dc: TableSlot, ac: TableSlot)
    reads dc.count, dc.bits, dc.val, ac.count, ac.bits, ac.val
  {
    && dc.Separate() && ac.Separate()
    && JpegTable(dc.count[..DC_CODES], dc.bits[..], dc.val[..]) && JpegTable(ac.count[..], ac.bits[..], ac.val[..])
  }

  /** Thirteen records at most have no code of more than twelve bits. */
  lemma DcFits(dcCount: seq<nat>)
    requires |Gathered(dcCount, |dcCount|, 1)| <= 12
    ensures !Overruns(dcCount)
  {
    hide Overruns, Gathered;
    if Overruns(dcCount) { OverrunsNeeds(dcCount); }
  }

  /** The end of the first pass, for one pair of tables: only the AC symbols can be too many. */
  method OptimizePair(dc: TableSlot, ac: TableSlot, ghost units: seq<Unit>) returns (fits: bool)
    requires Disjoint(dc, ac) && CountsAll(units, dc.count[..DC_CODES], ac.count[..])
    requires (forall k :: 0 <= k < |units| ==> SmallUnit(units[k])) && UnitsCountable(units)
    modifies dc.bits, dc.val, ac.bits, ac.val
    ensures fits <==> !Overruns(UnitCounts(units, false, AC_CODES))
    ensures fits ==> Optimized(dc, ac)
  {
    hide CountsAll, JpegTable, Gathered, Sum, KindCount, SmallUnit, Overruns, UnitsCountable, FourByteCounts;
    ghost var dcCount, acCount := dc.count[..DC_CODES], ac.count[..];
    TableHasRoom(units, dcCount, acCount);
    CountsInFourBytes(units, dcCount, acCount);
    assert ac.count[..AC_CODES] == acCount;
    DcFits(dcCount);
    fits := dc.Optimize(DC_CODES);
    ghost var b, v := dc.bits[..], dc.val[..];
    fits := ac.Optimize(AC_CODES);
    assert dc.count[..DC_CODES] == dcCount && dc.bits[..] == b && dc.val[..] == v;
    assert ac.count[..AC_CODES] == ac.count[..];
  }

  /** The counters are wide enough for the number of every symbol. */
  ghost predicate UnitsCountable(units: seq<Unit>) {
    forall dc: bool, sym: nat :: sym < 256 ==> UnitCount(units, dc, sym) < TWO_TO_32
  }

  lemma CountsInFourBytes(units: seq<Unit>, dcCount: seq<nat>, acCount: seq<nat>)
    requires CountsAll(units, dcCount, acCount) && UnitsCountable(units)
    ensures FourByteCounts(dcCount) && FourByteCounts(acCount) && acCount == UnitCounts(units, false, AC_CODES)
  {
    hide UnitCount;
  }

  /** The start of the second pass, for one pair of tables. */
  method ComputePair(dc: TableSlot, ac: TableSlot, ghost blocks: seq<CodedBlock>, ghost others: bool)
      returns (ghost dcTable: Table, ghost acTable: Table)
    requires Disjoint(dc, ac) && Optimized(dc, ac) && GoodScan(blocks, START)
    requires CountsAll(ScanUnits(blocks, START, others), dc.count[..DC_CODES], ac.count[..])
    modifies dc.codes, dc.codeSizes, ac.codes, ac.codeSizes
    ensures HoldsTable(dc.codes, dc.codeSizes, dcTable) && HoldsTable(ac.codes, ac.codeSizes, acTable)
    ensures AllCoded(ScanUnits(blocks, START, others), dcTable, acTable) && TableOk(dcTable) && TableOk(acTable)
    ensures FromList(dcTable, dc.bits[..], dc.val[..]) && FromList(acTable, ac.bits[..], ac.val[..])
  {
    hide CountsAll, JpegTable, BuiltFrom, HoldsTable, GoodScan, ScanUnits, AllCoded, Sizes;
    assert ac.count[..AC_CODES] == ac.count[..];
    dcTable := dc.Compute(DC_CODES);
    ghost var codes, codeSizes := dc.codes[..], dc.codeSizes[..];
    acTable := ac.Compute(AC_CODES);
    assert dc.codes[..] == codes && dc.codeSizes[..] == codeSizes;
    PassesAgree(blocks, others, dcTable, acTable, dc.count[..DC_CODES], ac.count[..], dc.bits[..], ac.bits[..]);
  }

  /** A decoder knows a table by its list: the sizes and the symbols that the file has. */
  ghost predicate FromList(t: Table, bits: seq<nat>, val: seq<nat>) {
    t.sizes == Sizes(bits) && t.val == val
  }

  lemma {:induction false} NoOthers(blocks: seq<CodedBlock>, lasts: seq<int>)
    requires |lasts| == 3 && GoodScan(blocks, lasts) && forall b :: b in blocks ==> b.component == 0
    ensures ScanUnits(blocks, lasts, true) == []
  {
    hide BlockUnits;
    if blocks != [] {
      assert blocks[0] in blocks;
      NoOthers(blocks[1..], NextLast(lasts, blocks[0]));
    }
  }

  /** No symbol occurs more often than the counters can say. */
  ghost predicate Countable(blocks: seq<CodedBlock>)
    requires GoodScan(blocks, START)
  {
    forall others: bool :: UnitsCountable(ScanUnits(blocks, START, others))
  }

  /** How often each AC symbol occurs in the first component, or in the others. */
  ghost function AcCounts(blocks: seq<CodedBlock>, others: bool): seq<nat>
    requires GoodScan(blocks, START)
  {
    UnitCounts(ScanUnits(blocks, START, others), false, AC_CODES)
  }

  /** The optimiser can measure the AC symbols of both pairs of tables, or of the one in use. */
  ghost predicate Encodable(blocks: seq<CodedBlock>, components: nat)
    requires GoodScan(blocks, START)
  {
    !Overruns(AcCounts(blocks, false)) && (components > 1 ==> !Overruns(AcCounts(blocks, true)))
  }

  lemma {:induction false} KindCountAppend(a: seq<Unit>, b: seq<Unit>, dc: bool)
    ensures KindCount(a + b, dc) == KindCount(a, dc) + KindCount(b, dc)
  {
    if b == [] {
      assert a + b == a;
    } else {
      KindCountAppend(a, b[..|b| - 1], dc);
      assert (a + b)[..|a + b| - 1] == a + b[..|b| - 1];
    }
  }

  lemma {:induction false} KindAtMostAll(units: seq<Unit>, dc: bool)
    ensures KindCount(units, dc) <= |units|
  {
    if units != [] { KindAtMostAll(units[..|units| - 1], dc); }
  }

  lemma {:induction false} KindOfSymbol(units: seq<Unit>, dc: bool, sym: nat)
    ensures UnitCount(units, dc, sym) <= KindCount(units, dc)
  {
    if units != [] { KindOfSymbol(units[..|units| - 1], dc, sym); }
  }

  lemma {:induction false} AcUnitsOnly(block: seq<int>, i: nat, run: nat)
    requires i <= |block| == 64
    ensures |AcUnits(block, i, run)| <= 64 - i + run
    ensures KindCount(AcUnits(block, i, run), true) == 0
    decreases 64 - i
  {
    if i < 64 {
      AcUnitsOnly(block, i + 1, if block[i] == 0 then run + 1 else 0);
      if block[i] != 0 {
        KindCountAppend(RunUnits(run, block[i]), AcUnits(block, i + 1, 0), true);
        RunUnitsOnly(run, block[i]);
      }
    }
  }

  lemma {:induction false} RunUnitsOnly(run: nat, v: int)
    ensures KindCount(RunUnits(run, v), true) == 0
  {
    NoDc(RunUnits(run, v));
  }

  lemma {:induction false} NoDc(units: seq<Unit>)
    requires forall k :: 0 <= k < |units| ==> !units[k].dc
    ensures KindCount(units, true) == 0
  {
    if units != [] { NoDc(units[..|units| - 1]); }
  }

  /** One DC symbol and 63 AC symbols at most in a block. */
  lemma {:induction false} BlockUnitsFew(block: seq<int>, last: int)
    requires |block| == 64
    ensures KindCount(BlockUnits(block, last), true) <= 1 && KindCount(BlockUnits(block, last), false) <= 63
  {
    var head, rest := [Unit(true, BitLength(Abs(block[0] - last)), block[0] - last)], AcUnits(block, 1, 0);
    hide AcUnits;
    AcUnitsOnly(block, 1, 0);
    KindAtMostAll(rest, false);
    assert head[..0] == [];
    assert KindCount(head, true) == 1 && KindCount(head, false) == 0;
    KindCountAppend(head, rest, true);
    KindCountAppend(head, rest, false);
  }

  lemma {:induction false} ScanUnitsFew(blocks: seq<CodedBlock>, lasts: seq<int>, others: bool)
    requires |lasts| == 3 && GoodScan(blocks, lasts)
    ensures KindCount(ScanUnits(blocks, lasts, others), true) <= |blocks|
    ensures KindCount(ScanUnits(blocks, lasts, others), false) <= 63 * |blocks|
  {
    hide BlockUnits;
    if blocks != [] {
      var b := blocks[0];
      var last, next := lasts[b.component], NextLast(lasts, b);
      ScanUnitsFew(blocks[1..], next, others);
      BlockUnitsFew(b.block, last);
      var head, rest := if (b.component > 0) == others then BlockUnits(b.block, last) else [], ScanUnits(blocks[1..], next, others);
      KindCountAppend(head, rest, true);
      KindCountAppend(head, rest, false);
    }
  }

  /** The counters suffice for any image of one component: up to 65535 by 65535 samples are 67108864 blocks. */
  lemma ImagesAreCountable(blocks: seq<CodedBlock>)
    requires GoodScan(blocks, START) && |blocks| <= 0x400_0000
    ensures Countable(blocks)
  {
    hide ScanUnits, KindCount, GoodScan, UnitCount;
    forall others: bool ensures UnitsCountable(ScanUnits(blocks, START, others)) {
      var units := ScanUnits(blocks, START, others);
      ScanUnitsFew(blocks, START, others);
      forall dc: bool, sym: nat | sym < 256 ensures UnitCount(units, dc, sym) < TWO_TO_32 { KindOfSymbol(units, dc, sym); }
    }
  }

  /** A caller's condition: fewer than 11405772 AC symbols for each table. */
  lemma FewSymbolsAreEncodable(blocks: seq<CodedBlock>, components: nat)
    requires GoodScan(blocks, START)
    requires forall others: bool :: KindCount(ScanUnits(blocks, START, others), false) + 1 < DEEP_TOTAL
    ensures Encodable(blocks, components)
  {
    hide ScanUnits, KindCount, GoodScan, Overruns, Sum;
    forall others: bool ensures !Overruns(AcCounts(blocks, others)) {
      TotalOfCounts(ScanUnits(blocks, START, others), false, AC_CODES);
      if Overruns(AcCounts(blocks, others)) { OverrunsNeeds(AcCounts(blocks, others)); }
    }
  }

  /** So it is for all images of up to 181043 blocks, more than eleven million samples. */
  lemma SmallImagesAreEncodable(blocks: seq<CodedBlock>, components: nat)
    requires GoodScan(blocks, START) && |blocks| <= 181043
    ensures Countable(blocks) && Encodable(blocks, components)
  {
    hide ScanUnits, KindCount, GoodScan, Encodable, Countable;
    ImagesAreCountable(blocks);
    forall others: bool ensures KindCount(ScanUnits(blocks, START, others), false) + 1 < DEEP_TOTAL {
      ScanUnitsFew(blocks, START, others);
    }
    FewSymbolsAreEncodable(blocks, components);
  }

  predicate OneComponent(blocks: seq<CodedBlock>) {
    forall b :: b in blocks ==> b.component == 0
  }

  lemma NoneCoded(blocks: seq<CodedBlock>, dcTable: Table, acTable: Table)
    requires GoodScan(blocks, START) && OneComponent(blocks)
    ensures AllCoded(ScanUnits(blocks, START, true), dcTable, acTable)
  {
    NoOthers(blocks, START);
  }

  /** The tables' arrays are all different. */
  ghost predicate AllDisjoint(dc: TableSlot, ac: TableSlot, otherDc: TableSlot, otherAc: TableSlot) {
    && Disjoint(dc, ac) && Disjoint(otherDc, otherAc) && Disjoint(dc, otherDc) && Disjoint(dc, otherAc)
    && Disjoint(ac, otherDc) && Disjoint(ac, otherAc)
  }

  /** The end of the first pass: the lists. An image of one component has only the first pair of tables. */
  method OptimizeAll(dc: TableSlot, ac: TableSlot, otherDc: TableSlot, otherAc: TableSlot, components: nat,
                     ghost blocks: seq<CodedBlock>) returns (fits: bool)
    requires AllDisjoint(dc, ac, otherDc, otherAc) && GoodScan(blocks, START) && Countable(blocks)
    requires CountsAll(ScanUnits(blocks, START, false), dc.count[..DC_CODES], ac.count[..])
    requires CountsAll(ScanUnits(blocks, START, true), otherDc.count[..DC_CODES], otherAc.count[..])
    modifies dc.bits, dc.val, ac.bits, ac.val, otherDc.bits, otherDc.val, otherAc.bits, otherAc.val
    ensures fits <==> Encodable(blocks, components)
    ensures fits ==> Optimized(dc, ac) && (components > 1 ==> Optimized(otherDc, otherAc))
  {
    hide GoodScan, ScanUnits, CountsAll, SmallUnit, UnitsCountable, UnitCounts, Overruns, Optimized;
    ScanUnitsSmall(blocks, START, false);
    ScanUnitsSmall(blocks, START, true);
    fits := OptimizePair(dc, ac, ScanUnits(blocks, START, false));
    if fits && components > 1 { fits := OptimizePair(otherDc, otherAc, ScanUnits(blocks, START, true)); }
  }

  /** The start of the second pass: the codes. */
  method ComputeAll(dc: TableSlot, ac: TableSlot, otherDc: TableSlot, otherAc: TableSlot, components: nat,
                    ghost blocks: seq<CodedBlock>) returns (ghost t: Tables)
    requires AllDisjoint(dc, ac, otherDc, otherAc) && GoodScan(blocks, START) && (components <= 1 ==> OneComponent(blocks))
    requires CountsAll(ScanUnits(blocks, START, false), dc.count[..DC_CODES], ac.count[..])
    requires CountsAll(ScanUnits(blocks, START, true), otherDc.count[..DC_CODES], otherAc.count[..])
    requires Optimized(dc, ac) && (components > 1 ==> Optimized(otherDc, otherAc))
    modifies dc.codes, dc.codeSizes, ac.codes, ac.codeSizes, otherDc.codes, otherDc.codeSizes, otherAc.codes, otherAc.codeSizes
    ensures TablesOk(t) && ScanCoded(blocks, START, t)
    ensures HoldsTable(dc.codes, dc.codeSizes, t.dc) && HoldsTable(ac.codes, ac.codeSizes, t.ac)
    ensures components > 1 ==> HoldsTable(otherDc.codes, otherDc.codeSizes, t.otherDc)
    ensures components > 1 ==> HoldsTable(otherAc.codes, otherAc.codeSizes, t.otherAc)
    ensures FromList(t.dc, dc.bits[..], dc.val[..]) && FromList(t.ac, ac.bits[..], ac.val[..])
    ensures components > 1 ==> FromList(t.otherDc, otherDc.bits[..], otherDc.val[..])
    ensures components > 1 ==> FromList(t.otherAc, otherAc.bits[..], otherAc.val[..])
  {
    hide GoodScan, ScanUnits, CountsAll, HoldsTable, AllCoded, FromList, OneComponent, TableOk, Optimized;
    ghost var d, a := ComputePair(dc, ac, blocks, false);
    ghost var od, oa := d, a;
    if components > 1 {
      od, oa := ComputePair(otherDc, otherAc, blocks, true);
    } else {
      NoneCoded(blocks, d, a);
    }
    t := Tables(d, a, od, oa);
  }

  /** What the first pass leaves: counts of all symbols, and lists that match them. */
  ghost predicate Between(dc: TableSlot, ac: TableSlot, otherDc: TableSlot, otherAc: TableSlot, components: nat,
                          blocks: seq<CodedBlock>)
    requires GoodScan(blocks, START)
    reads dc.count, dc.bits, dc.val, ac.count, ac.bits, ac.val
    reads otherDc.count, otherDc.bits, otherDc.val, otherAc.count, otherAc.bits, otherAc.val
  {
    && AllDisjoint(dc, ac, otherDc, otherAc)
    && CountsAll(ScanUnits(blocks, START, false), dc.count[..DC_CODES], ac.count[..])
    && CountsAll(ScanUnits(blocks, START, true), otherDc.count[..DC_CODES], otherAc.count[..])
    && Optimized(dc, ac) && (components > 1 ==> Optimized(otherDc, otherAc))
  }

  /** Counts all blocks and makes the lists, if the counts can be measured. */
  method FirstPass(blocks: seq<CodedBlock>, components: nat, dc: TableSlot, ac: TableSlot, otherDc: TableSlot, otherAc: TableSlot)
      returns (fits: bool)
    requires AllDisjoint(dc, ac, otherDc, otherAc) && GoodScan(blocks, START) && Countable(blocks)
    requires forall i :: 0 <= i < 256 ==> dc.count[i] == ac.count[i] == otherDc.count[i] == otherAc.count[i] == 0
    modifies dc.count, ac.count, otherDc.count, otherAc.count
    modifies dc.bits, dc.val, ac.bits, ac.val, otherDc.bits, otherDc.val, otherAc.bits, otherAc.val
    ensures fits <==> Encodable(blocks, components)
    ensures fits ==> Between(dc, ac, otherDc, otherAc, components, blocks)
  {
    hide GoodScan, ScanUnits, CountsAll, Countable, Encodable, Optimized;
    CountScan(blocks, dc.count, ac.count, otherDc.count, otherAc.count);
    ghost var d, a, od, oa := dc.count[..], ac.count[..], otherDc.count[..], otherAc.count[..];
    fits := OptimizeAll(dc, ac, otherDc, otherAc, components, blocks);
    assert dc.count[..] == d && ac.count[..] == a && otherDc.count[..] == od && otherAc.count[..] == oa;
    assert dc.count[..DC_CODES] == d[..DC_CODES] && otherDc.count[..DC_CODES] == od[..DC_CODES];
  }

  /** Computes the codes, and puts out all blocks. */
  method SecondPass(blocks: seq<CodedBlock>, components: nat, dc: TableSlot, ac: TableSlot, otherDc: TableSlot, otherAc: TableSlot)
      returns (stream: seq<nat>, ghost t: Tables, ghost plain: seq<nat>, ghost pad: Word)
    requires GoodScan(blocks, START) && Between(dc, ac, otherDc, otherAc, components, blocks)
    requires components <= 1 ==> OneComponent(blocks)
    modifies dc.codes, dc.codeSizes, ac.codes, ac.codeSizes, otherDc.codes, otherDc.codeSizes, otherAc.codes, otherAc.codeSizes
    ensures TablesOk(t) && ScanCoded(blocks, START, t) && |pad| < 8 && AllOnes(pad)
    ensures stream == Stuffed(plain) && ByteBits(plain) == ScanBits(blocks, START, t) + pad
    ensures FromList(t.dc, dc.bits[..], dc.val[..]) && FromList(t.ac, ac.bits[..], ac.val[..])
    ensures components > 1 ==> FromList(t.otherDc, otherDc.bits[..], otherDc.val[..])
    ensures components > 1 ==> FromList(t.otherAc, otherAc.bits[..], otherAc.val[..])
  {
    hide GoodScan, ScanUnits, CountsAll, HoldsTable, FromList, ScanCoded, TablesOk, ScanBits, Optimized,
      ScanWriter.Valid, ScanWriter.Put, Stuffed, ByteBits, Bits;
    t := ComputeAll(dc, ac, otherDc, otherAc, components, blocks);
    var w := new ScanWriter();
    PutScan(blocks, dc, ac, otherDc, otherAc, w, t);
    pad := w.Terminate();
    stream, plain := w.stream, w.plain;
  }

  /** A decoder knows the tables by the lists that the file has. */
  ghost predicate InFile(t: Tables, dc: TableSlot, ac: TableSlot, otherDc: TableSlot, otherAc: TableSlot, components: nat)
    reads dc.bits, dc.val, ac.bits, ac.val, otherDc.bits, otherDc.val, otherAc.bits, otherAc.val
  {
    && FromList(t.dc, dc.bits[..], dc.val[..]) && FromList(t.ac, ac.bits[..], ac.val[..])
    && (components > 1 ==>
        FromList(t.otherDc, otherDc.bits[..], otherDc.val[..]) && FromList(t.otherAc, otherAc.bits[..], otherAc.val[..]))
  }

  const NO_TABLES: Tables := var none := Table([], [], [], []); Tables(none, none, none, none)

  /** What the bytes of a scan give back. */
  ghost predicate Readable(stream: seq<nat>, blocks: seq<CodedBlock>, t: Tables, pad: Word) {
    && ReadScan(ByteBits(Unstuffed(stream)), Components(blocks), START, t) == Received(blocks, pad)
    && forall i :: 0 <= i < |stream| && stream[i] == 0xFF ==> i + 1 < |stream| && stream[i + 1] == 0
  }

  lemma StreamIsRead(blocks: seq<CodedBlock>, t: Tables, plain: seq<nat>, pad: Word)
    requires GoodScan(blocks, START) && TablesOk(t) && ScanCoded(blocks, START, t)
    requires ByteBits(plain) == ScanBits(blocks, START, t) + pad
    ensures Readable(Stuffed(plain), blocks, t, pad)
  {
    hide GoodScan, ScanCoded, TablesOk, ScanBits, ReadScan, ByteBits, Components, Stuffed, Unstuffed;
    StoredScanIsRead(blocks, t, plain, pad);
    var stream := Stuffed(plain);
    forall i | 0 <= i < |stream| && stream[i] == 0xFF ensures i + 1 < |stream| && stream[i + 1] == 0 { NoMarkers(plain, i); }
  }

  /** Codes a whole scan in two passes if its symbols can be measured, and only then: from the bytes put out a decoder with the
      tables' lists recovers every block, and nothing but the padding is left; and no byte but a stuffed zero follows 0xFF. */
  method EncodeScan(blocks: seq<CodedBlock>, components: nat)
      returns (ok: bool, stream: seq<nat>, dc: TableSlot, ac: TableSlot, otherDc: TableSlot, otherAc: TableSlot,
               ghost t: Tables, ghost pad: Word)
    requires GoodScan(blocks, START) && Countable(blocks) && (components <= 1 ==> OneComponent(blocks))
    ensures ok <==> Encodable(blocks, components)
    ensures ok ==> Readable(stream, blocks, t, pad) && |pad| < 8 && AllOnes(pad)
    ensures ok ==> InFile(t, dc, ac, otherDc, otherAc, components)
  {
    hide GoodScan, FromList, Countable, Encodable, ScanCoded, TablesOk, ScanBits, Readable, Between, Stuffed, ByteBits, OneComponent,
      NO_TABLES;
    dc := new TableSlot();
    ac := new TableSlot();
    otherDc := new TableSlot();
    otherAc := new TableSlot();
    stream, t, pad := [], NO_TABLES, [];
    ok := FirstPass(blocks, components, dc, ac, otherDc, otherAc);
    if ok {
      ghost var plain;
      stream, t, plain, pad := SecondPass(blocks, components, dc, ac, otherDc, otherAc);
      StreamIsRead(blocks, t, plain, pad);
    }
  }
}
