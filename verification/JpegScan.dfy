/** Coding blocks of quantised coefficients: what the first pass counts, what the second puts out, and what a
    decoder (section F.2.2 of ITU-T T.81) reads. */
module JpegScan {
  import opened Sequences
  import opened Arithmetic
  import opened PrefixCodes
  import opened CanonicalCodes
  import opened JpegTables
  import opened JpegBits

  const ZRL: nat := 0xF0
  const EOB: nat := 0

  // ----- magnitudes

  function Abs(v: int): nat { if v < 0 then -v else v }

  /** The number of bits of v. */
  function BitLength(v: nat): (n: nat)
  {
    if v == 0 then 0 else 1 + BitLength(v / 2)
  }

  lemma {:induction false} BitLengthBounds(v: nat)
    ensures v < Pow2(BitLength(v)) && (v > 0 ==> BitLength(v) >= 1 && Pow2(BitLength(v) - 1) <= v)
  {
    if v > 1 { BitLengthBounds(v / 2); }
  }

  lemma {:induction false} BitLengthAtMost(v: nat, n: nat)
    requires v < Pow2(n)
    ensures BitLength(v) <= n
  {
    if v > 0 { BitLengthAtMost(v / 2, n - 1); }
  }

  /** The extra bits of a difference or coefficient: one less if it is negative, masked. */
  function Extra(v: int): (e: nat)
  {
    (if v < 0 then v - 1 else v) % Pow2(BitLength(Abs(v)))
  }

  /** The decoder's extension of n received bits (section F.2.2.1). */
  function Extend(e: nat, n: nat): int {
    if n == 0 then 0 else if e < Pow2(n - 1) then e - Pow2(n) + 1 else e
  }

  lemma ExtendOfExtra(v: int)
    ensures Extra(v) < Pow2(BitLength(Abs(v))) && Extend(Extra(v), BitLength(Abs(v))) == v
  {
    var n := BitLength(Abs(v));
    BitLengthBounds(Abs(v));
    if v < 0 {
      assert v - 1 == Pow2(n) * -1 + (v - 1 + Pow2(n));
      ModOf(v - 1, Pow2(n), -1, v - 1 + Pow2(n));
    } else {
      ModOf(v, Pow2(n), 0, v);
    }
  }

  lemma ModOf(a: int, b: nat, q: int, r: nat)
    requires b > 0 && a == b * q + r && r < b
    ensures a % b == r
  {
    var d := a / b - q;
    assert b * d == r - a % b;
    assert d > 0 ==> b * d >= b;
    assert d < 0 ==> b * d <= -(b as int);
  }

  // ----- the symbols of a block

  /** A symbol of a DC or AC table, with extra bits. */
  datatype Unit = Unit(dc: bool, symbol: nat, value: int)

  function UnitLength(u: Unit): nat { BitLength(Abs(u.value)) }

  function ZeroRuns(n: nat): (units: seq<Unit>)
    ensures |units| == n
  {
    seq(n, _ => Unit(false, ZRL, 0))
  }

  /** From coefficient i on, behind `run` zeros. */
  function AcUnits(block: seq<int>, i: nat, run: nat): (units: seq<Unit>)
    requires i <= |block|
    decreases |block| - i
  {
    if i == |block| then if run > 0 then [Unit(false, EOB, 0)] else []
    else if block[i] == 0 then AcUnits(block, i + 1, run + 1)
    else ZeroRuns(run / 16) + [Unit(false, 16 * (run % 16) + BitLength(Abs(block[i])), block[i])] + AcUnits(block, i + 1, 0)
  }

  function BlockUnits(block: seq<int>, last: int): (units: seq<Unit>)
    requires |block| == 64
  {
    [Unit(true, BitLength(Abs(block[0] - last)), block[0] - last)] + AcUnits(block, 1, 0)
  }

  /** Coefficients of 16 bits whose magnitudes need at most 15, differences of at most 11. */
  ghost predicate GoodBlock(block: seq<int>, last: int) {
    |block| == 64 && Abs(block[0] - last) < 2048 && forall i :: 1 <= i < 64 ==> Abs(block[i]) < 32768
  }

  function UnitCount(units: seq<Unit>, dc: bool, symbol: nat): (n: nat)
    ensures n <= |units|
  {
    if units == [] then 0
    else
      var u := units[|units| - 1];
      UnitCount(units[..|units| - 1], dc, symbol) + if u.dc == dc && u.symbol == symbol then 1 else 0
  }

  lemma {:induction false} UnitCountAppend(a: seq<Unit>, b: seq<Unit>, dc: bool, symbol: nat)
    ensures UnitCount(a + b, dc, symbol) == UnitCount(a, dc, symbol) + UnitCount(b, dc, symbol)
  {
    if b == [] {
      assert a + b == a;
    } else {
      UnitCountAppend(a, b[..|b| - 1], dc, symbol);
      assert (a + b)[..|a + b| - 1] == a + b[..|b| - 1];
    }
  }

  lemma {:induction false} UnitIsCounted(units: seq<Unit>, k: nat)
    requires k < |units|
    ensures UnitCount(units, units[k].dc, units[k].symbol) > 0
  {
    if k < |units| - 1 { UnitIsCounted(units[..|units| - 1], k); }
  }

  // ----- pass one

  /** Counts have grown by those of the units. */
  ghost predicate CountedUp(before: seq<nat>, after: seq<nat>, units: seq<Unit>, dc: bool) {
    |before| == |after| == 256 && forall sym :: 0 <= sym < 256 ==> after[sym] == before[sym] + UnitCount(units, dc, sym)
  }

  lemma CountedOne(before: seq<nat>, after: seq<nat>, units: seq<Unit>, u: Unit)
    requires CountedUp(before, after, units, u.dc) && u.symbol < 256
    ensures CountedUp(before, after[u.symbol := after[u.symbol] + 1], units + [u], u.dc)
  {
    forall sym | 0 <= sym < 256
      ensures after[u.symbol := after[u.symbol] + 1][sym] == before[sym] + UnitCount(units + [u], u.dc, sym)
    {
      assert (units + [u])[..|units|] == units;
    }
  }

  lemma CountedOther(before: seq<nat>, after: seq<nat>, units: seq<Unit>, u: Unit, dc: bool)
    requires CountedUp(before, after, units, dc) && u.dc != dc
    ensures CountedUp(before, after, units + [u], dc)
  {
    assert (units + [u])[..|units|] == units;
  }

  lemma CountedNone(count: seq<nat>, dc: bool)
    requires |count| == 256
    ensures CountedUp(count, count, [], dc)
  {
  }

  method CountBits(v: nat) returns (n: nat)
    ensures n == BitLength(v)
  {
    n := 0;
    var rest: nat := v;
    while rest != 0
      invariant n + BitLength(rest) == BitLength(v)
      decreases rest
    {
      n := n + 1;
      rest := rest / 2;
    }
  }

  /** As CountBits, for a value that is not 0: the loop shifts before it looks. */
  method CountBitsFromOne(v: nat) returns (n: nat)
    requires v > 0
    ensures n == BitLength(v)
  {
    n := 1;
    var rest: nat := v / 2;
    while rest != 0
      invariant n + BitLength(rest) == BitLength(v)
      decreases rest
    {
      n := n + 1;
      rest := rest / 2;
    }
  }

  /** A coefficient that is not 0, behind `run` zeros. */
  function RunUnits(run: nat, v: int): (units: seq<Unit>)
  {
    ZeroRuns(run / 16) + [Unit(false, 16 * (run % 16) + BitLength(Abs(v)), v)]
  }

  lemma RunUnitsLong(run: nat, v: int)
    requires run >= 16
    ensures RunUnits(run, v) == [Unit(false, ZRL, 0)] + RunUnits(run - 16, v)
  {
    assert ZeroRuns(run / 16) == [Unit(false, ZRL, 0)] + ZeroRuns(run / 16 - 1);
  }

  lemma SymbolInByte(run: nat, v: int)
    requires run < 16 && v != 0 && Abs(v) < 32768
    ensures RunUnits(run, v) == [Unit(false, 16 * run + BitLength(Abs(v)), v)]
    ensures 1 <= BitLength(Abs(v)) <= 15 && 16 * run + BitLength(Abs(v)) < 256
  {
    assert Pow2(15) == 32768 by { Pow2Add(8, 7); assert Pow2(8) == 256 && Pow2(7) == 128; }
    BitLengthAtMost(Abs(v), 15);
    BitLengthBounds(Abs(v));
    assert ZeroRuns(0) == [];
  }

  lemma DcSymbolSmall(v: int)
    requires Abs(v) < 2048
    ensures BitLength(Abs(v)) <= 11
  {
    assert Pow2(11) == 2048 by { Pow2Add(8, 3); assert Pow2(8) == 256 && Pow2(3) == 8; }
    BitLengthAtMost(Abs(v), 11);
  }

  lemma AcUnitsStep(block: seq<int>, i: nat, run: nat, next: nat)
    requires i < |block| && next == i + 1
    ensures block[i] == 0 ==> AcUnits(block, i, run) == AcUnits(block, next, run + 1)
    ensures block[i] != 0 ==> AcUnits(block, i, run) == RunUnits(run, block[i]) + AcUnits(block, next, 0)
  {
  }

  /** Counts the zero runs and the symbol of one coefficient. */
  method CountRun(acCount: array<nat>, run: nat, v: int, ghost before: seq<nat>, ghost done: seq<Unit>)
      returns (ghost done': seq<Unit>)
    requires acCount.Length == 256 && v != 0 && Abs(v) < 32768 && CountedUp(before, acCount[..], done, false)
    modifies acCount
    ensures done' == done + RunUnits(run, v) && CountedUp(before, acCount[..], done', false)
  {
    hide CountedUp, RunUnits, BitLength, Abs;
    done' := done;
    var left := run;
    assert done + RunUnits(run, v) == done' + RunUnits(left, v);
    while left >= 16
      invariant done + RunUnits(run, v) == done' + RunUnits(left, v)
      invariant CountedUp(before, acCount[..], done', false)
    {
      ghost var c := acCount[..];
      CountedOne(before, c, done', Unit(false, ZRL, 0));
      acCount[ZRL] := acCount[ZRL] + 1;
      assert acCount[..] == c[ZRL := c[ZRL] + 1];
      RunUnitsLong(left, v);
      JoinThree(done', [Unit(false, ZRL, 0)], RunUnits(left - 16, v));
      done' := done' + [Unit(false, ZRL, 0)];
      left := left - 16;
    }
    SymbolInByte(left, v);
    NotZero(v);
    var nbits := CountBitsFromOne(if v < 0 then -v else v);
    ghost var c := acCount[..];
    ghost var u := Unit(false, 16 * left + nbits, v);
    CountedOne(before, c, done', u);
    acCount[16 * left + nbits] := acCount[16 * left + nbits] + 1;
    assert acCount[..] == c[16 * left + nbits := c[16 * left + nbits] + 1];
    done' := done' + [u];
  }

  lemma NotZero(v: int)
    ensures Abs(v) == if v < 0 then -v else v
  {
  }

  /** Counts the symbols of a block. */
  method CodeCoefficientsPassOne(block: array<int>, lastDc: array<int>, component: nat, dcCount: array<nat>, acCount: array<nat>)
    requires component < lastDc.Length && block.Length == 64 && lastDc != block
    requires dcCount.Length == acCount.Length == 256 && dcCount != acCount
    requires GoodBlock(block[..], lastDc[component])
    modifies lastDc, dcCount, acCount
    ensures lastDc[..] == old(lastDc[..])[component := block[0]]
    ensures CountedUp(old(dcCount[..]), dcCount[..], BlockUnits(block[..], old(lastDc[component])), true)
    ensures CountedUp(old(acCount[..]), acCount[..], BlockUnits(block[..], old(lastDc[component])), false)
  {
    hide CountedUp, RunUnits, BitLength, AcUnits, Abs;
    ghost var b, dc, ac, last := block[..], dcCount[..], acCount[..], lastDc[component];
    var diff := block[0] - lastDc[component];
    lastDc[component] := block[0];
    DcSymbolSmall(diff);
    NotZero(diff);
    var nbits := CountBits(if diff < 0 then -diff else diff);
    ghost var first := Unit(true, nbits, diff);
    CountedNone(dc, true);
    CountedNone(ac, false);
    CountedOne(dc, dc, [], first);
    CountedOther(ac, ac, [], first, false);
    dcCount[nbits] := dcCount[nbits] + 1;
    assert dcCount[..] == dc[nbits := dc[nbits] + 1] && [] + [first] == [first];
    ghost var done := [first];
    ghost var dcNow := dcCount[..];
    var run := 0;
    for i := 1 to 64
      invariant dcCount[..] == dcNow && lastDc[..] == old(lastDc[..])[component := block[0]] && block[..] == b
      invariant 0 <= run && done + AcUnits(b, i, run) == BlockUnits(b, last)
      invariant CountedUp(ac, acCount[..], done, false) && CountedUp(dc, dcNow, done, true)
    {
      AcUnitsStep(b, i, run, i + 1);
      if block[i] == 0 {
        run := run + 1;
      } else {
        ghost var was := done;
        GoodCoefficient(b, last, i);
        done := CountRun(acCount, run, block[i], ac, done);
        JoinThree(was, RunUnits(run, b[i]), AcUnits(b, i + 1, 0));
        OnlyAc(dc, dcNow, was, run, b[i]);
        run := 0;
      }
    }
    LastUnits(b, run);
    if run != 0 {
      ghost var c := acCount[..];
      CountedOne(ac, c, done, Unit(false, EOB, 0));
      CountedOther(dc, dcNow, done, Unit(false, EOB, 0), true);
      acCount[EOB] := acCount[EOB] + 1;
      assert acCount[..] == c[EOB := c[EOB] + 1];
    } else {
      assert done + [] == done;
    }
  }

  lemma GoodCoefficient(block: seq<int>, last: int, i: nat)
    requires GoodBlock(block, last) && 1 <= i < 64
    ensures Abs(block[i]) < 32768
  {
  }

  lemma LastUnits(block: seq<int>, run: nat)
    ensures AcUnits(block, |block|, run) == if run > 0 then [Unit(false, EOB, 0)] else []
  {
  }

  lemma OnlyAc(before: seq<nat>, after: seq<nat>, done: seq<Unit>, run: nat, v: int)
    requires CountedUp(before, after, done, true)
    ensures CountedUp(before, after, done + RunUnits(run, v), true)
  {
    forall sym | 0 <= sym < 256 ensures UnitCount(done + RunUnits(run, v), true, sym) == UnitCount(done, true, sym) {
      UnitCountAppend(done, RunUnits(run, v), true, sym);
      NoneCounted(RunUnits(run, v), sym);
    }
  }

  lemma {:induction false} NoneCounted(units: seq<Unit>, sym: nat)
    requires forall i :: 0 <= i < |units| ==> !units[i].dc
    ensures UnitCount(units, true, sym) == 0
  {
    if units != [] { NoneCounted(units[..|units| - 1], sym); }
  }

  // ----- Huffman tables as the encoder holds them and as a decoder uses them

  /** The list of code sizes and symbols, and the codes and code sizes by symbol. */
  datatype Table = Table(sizes: seq<nat>, val: seq<nat>, codes: seq<nat>, codeSizes: seq<nat>)

  ghost predicate TableOk(t: Table) {
    && Fits(t.sizes, LIMIT) && |t.sizes| <= |t.val|
    && TableCodes(t.codes, t.codeSizes, t.sizes, t.val, |t.sizes|)
  }

  predicate HasWord(t: Table, sym: nat) {
    sym < |t.codes| && sym < |t.codeSizes| && t.codeSizes[sym] > 0
  }

  function SymbolWord(t: Table, sym: nat): (word: Word)
    requires HasWord(t, sym)
  {
    Bits(t.codes[sym], t.codeSizes[sym])
  }

  datatype Received<T> = Fail | Received(value: T, rest: Word)

  /** A decoder finds the position of a code bit by bit, and the symbol at that position. */
  function ReadSymbol(bits: Word, t: Table): Received<nat> {
    match Decode(t.sizes, LIMIT, bits)
    case NoSymbol => Fail
    case Symbol(p, len) => if p < |t.val| && 1 <= len <= |bits| then Received(t.val[p], bits[len..]) else Fail
  }

  /** The next n bits as a number. */
  function Receive(bits: Word, n: nat): Received<nat> {
    if n > |bits| then Fail else Received(Value(bits[..n]), bits[n..])
  }

  lemma WordIsInList(t: Table, sym: nat) returns (p: nat)
    requires TableOk(t) && HasWord(t, sym)
    ensures p < |t.sizes| && t.val[p] == sym && Used(t.sizes, p) && SymbolWord(t, sym) == CodeWord(t.sizes, p)
    ensures t.codes[sym] < Pow2(t.codeSizes[sym]) && t.codeSizes[sym] <= LIMIT
  {
    assert sym in t.val[..|t.sizes|];
    p :| 0 <= p < |t.sizes| && t.val[p] == sym;
    assert HasCode(t.codes, t.codeSizes, t.sizes, t.val, p);
    CodeValue(t.sizes, LIMIT, p);
  }

  lemma ReadSymbolOf(t: Table, sym: nat, rest: Word)
    requires TableOk(t) && HasWord(t, sym)
    ensures ReadSymbol(SymbolWord(t, sym) + rest, t) == Received(sym, rest) && |SymbolWord(t, sym)| > 0
  {
    hide Decode, TableCodes, Fits;
    var p := WordIsInList(t, sym);
    TableFits(t);
    DecodeInvertsCode(t.sizes, LIMIT, p, rest);
    FrontAndRest(SymbolWord(t, sym), rest);
  }

  lemma TableFits(t: Table)
    requires TableOk(t)
    ensures Fits(t.sizes, LIMIT) && |t.sizes| <= |t.val|
  {
  }

  lemma ReceiveOf(v: nat, n: nat, rest: Word)
    requires v < Pow2(n)
    ensures Receive(Bits(v, n) + rest, n) == Received(v, rest)
  {
    ValueOfBits(v, n);
    FrontAndRest(Bits(v, n), rest);
  }

  // ----- the bits of a block

  ghost predicate UnitCoded(u: Unit, dcTable: Table, acTable: Table) {
    HasWord(if u.dc then dcTable else acTable, u.symbol)
  }

  ghost predicate AllCoded(units: seq<Unit>, dcTable: Table, acTable: Table) {
    forall i :: 0 <= i < |units| ==> UnitCoded(units[i], dcTable, acTable)
  }

  function ExtraWord(v: int): (word: Word) {
    Bits(Extra(v), BitLength(Abs(v)))
  }

  ghost function UnitBits(u: Unit, dcTable: Table, acTable: Table): (bits: Word)
    requires UnitCoded(u, dcTable, acTable)
  {
    SymbolWord(if u.dc then dcTable else acTable, u.symbol) + ExtraWord(u.value)
  }

  ghost function UnitsBits(units: seq<Unit>, dcTable: Table, acTable: Table): (bits: Word)
    requires AllCoded(units, dcTable, acTable)
  {
    if units == [] then [] else UnitBits(units[0], dcTable, acTable) + UnitsBits(units[1..], dcTable, acTable)
  }

  lemma {:induction false} UnitsBitsAppend(a: seq<Unit>, b: seq<Unit>, dcTable: Table, acTable: Table)
    requires AllCoded(a + b, dcTable, acTable)
    ensures AllCoded(a, dcTable, acTable) && AllCoded(b, dcTable, acTable)
    ensures UnitsBits(a + b, dcTable, acTable) == UnitsBits(a, dcTable, acTable) + UnitsBits(b, dcTable, acTable)
  {
    hide UnitBits, UnitCoded;
    forall i | 0 <= i < |a| ensures UnitCoded(a[i], dcTable, acTable) { assert (a + b)[i] == a[i]; }
    forall i | 0 <= i < |b| ensures UnitCoded(b[i], dcTable, acTable) { assert (a + b)[|a| + i] == b[i]; }
    if a == [] {
      assert a + b == b;
    } else {
      assert (a + b)[1..] == a[1..] + b && (a + b)[0] == a[0];
      UnitsBitsAppend(a[1..], b, dcTable, acTable);
      JoinThree(UnitBits(a[0], dcTable, acTable), UnitsBits(a[1..], dcTable, acTable), UnitsBits(b, dcTable, acTable));
    }
  }

  // ----- decoding a block

  function Zeros(n: nat): (r: seq<int>)
    ensures |r| == n
  {
    seq(n, _ => 0)
  }

  /** The AC coefficients behind those read so far (section F.2.2.2). */
  function ReadAc(bits: Word, sofar: seq<int>, t: Table): Received<seq<int>>
    decreases 64 - |sofar|
  {
    if |sofar| >= 64 then if |sofar| == 64 then Received(sofar, bits) else Fail
    else
      match ReadSymbol(bits, t)
      case Fail => Fail
      case Received(rs, rest) =>
        var r, s := rs / 16, rs % 16;
        if s == 0 && r == 15 then ReadAc(rest, sofar + Zeros(16), t)
        else if s == 0 then Received(sofar + Zeros(64 - |sofar|), rest)
        else
          match Receive(rest, s)
          case Fail => Fail
          case Received(e, rest2) => ReadAc(rest2, sofar + Zeros(r) + [Extend(e, s)], t)
  }

  function ReadBlock(bits: Word, last: int, dcTable: Table, acTable: Table): Received<seq<int>> {
    match ReadSymbol(bits, dcTable)
    case Fail => Fail
    case Received(n, rest) =>
      match Receive(rest, n)
      case Fail => Fail
      case Received(e, rest2) => ReadAc(rest2, [last + Extend(e, n)], acTable)
  }

  lemma ReadUnit(u: Unit, dcTable: Table, acTable: Table, rest: Word)
    requires UnitCoded(u, dcTable, acTable) && TableOk(dcTable) && TableOk(acTable)
    ensures var bits, t := UnitBits(u, dcTable, acTable) + rest, if u.dc then dcTable else acTable;
      && ReadSymbol(bits, t) == Received(u.symbol, ExtraWord(u.value) + rest)
      && Receive(ExtraWord(u.value) + rest, UnitLength(u)) == Received(Extra(u.value), rest)
      && Extend(Extra(u.value), UnitLength(u)) == u.value
  {
    hide ReadSymbol, Receive, TableOk, Extend, Extra, Bits;
    var t := if u.dc then dcTable else acTable;
    JoinThree(SymbolWord(t, u.symbol), ExtraWord(u.value), rest);
    ReadSymbolOf(t, u.symbol, ExtraWord(u.value) + rest);
    ExtendOfExtra(u.value);
    ReceiveOf(Extra(u.value), BitLength(Abs(u.value)), rest);
  }

  /** Zero runs in front of a coefficient. */
  lemma {:induction false} ReadZeroRuns(n: nat, sofar: seq<int>, dcTable: Table, acTable: Table, rest: Word)
    requires AllCoded(ZeroRuns(n), dcTable, acTable) && TableOk(dcTable) && TableOk(acTable)
    requires |sofar| + 16 * n < 64
    ensures ReadAc(UnitsBits(ZeroRuns(n), dcTable, acTable) + rest, sofar, acTable) == ReadAc(rest, sofar + Zeros(16 * n), acTable)
    decreases n
  {
    hide ReadSymbol, Receive, TableOk, UnitCoded, UnitBits;
    if n == 0 {
      assert ZeroRuns(0) == [] && sofar + Zeros(0) == sofar;
      assert UnitsBits([], dcTable, acTable) + rest == rest;
    } else {
      var u := Unit(false, ZRL, 0);
      assert ZeroRuns(n)[1..] == ZeroRuns(n - 1) && ZeroRuns(n)[0] == u;
      var more := UnitsBits(ZeroRuns(n - 1), dcTable, acTable) + rest;
      JoinThree(UnitBits(u, dcTable, acTable), UnitsBits(ZeroRuns(n - 1), dcTable, acTable), rest);
      ReadUnit(u, dcTable, acTable, more);
      NoExtra(more);
      ReadZeroRuns(n - 1, sofar + Zeros(16), dcTable, acTable, rest);
      assert sofar + Zeros(16) + Zeros(16 * (n - 1)) == sofar + Zeros(16 * n);
    }
  }

  lemma NoExtra(rest: Word)
    ensures ExtraWord(0) + rest == rest
  {
  }

  lemma SplitSymbol(m: nat, n: nat)
    requires 1 <= n <= 15
    ensures (16 * m + n) / 16 == m && (16 * m + n) % 16 == n
  {
  }

  /** A coefficient behind fewer than 16 zeros. */
  lemma ReadShortRun(m: nat, v: int, sofar: seq<int>, dcTable: Table, acTable: Table, rest: Word)
    requires TableOk(dcTable) && TableOk(acTable) && v != 0 && Abs(v) < 32768 && m < 16 && |sofar| + m < 64
    requires UnitCoded(Unit(false, 16 * m + BitLength(Abs(v)), v), dcTable, acTable)
    ensures ReadAc(UnitBits(Unit(false, 16 * m + BitLength(Abs(v)), v), dcTable, acTable) + rest, sofar, acTable)
      == ReadAc(rest, sofar + Zeros(m) + [v], acTable)
  {
    hide ReadSymbol, Receive, TableOk, UnitCoded, UnitBits, Extend, BitLength, Abs, ExtraWord, Extra;
    SymbolInByte(m, v);
    SplitSymbol(m, BitLength(Abs(v)));
    ReadUnit(Unit(false, 16 * m + BitLength(Abs(v)), v), dcTable, acTable, rest);
  }

  lemma ReadRun(run: nat, v: int, sofar: seq<int>, dcTable: Table, acTable: Table, rest: Word)
    requires AllCoded(RunUnits(run, v), dcTable, acTable) && TableOk(dcTable) && TableOk(acTable)
    requires v != 0 && Abs(v) < 32768 && |sofar| + run < 64
    ensures ReadAc(UnitsBits(RunUnits(run, v), dcTable, acTable) + rest, sofar, acTable)
      == ReadAc(rest, sofar + Zeros(run) + [v], acTable)
  {
    hide ReadSymbol, Receive, TableOk, UnitCoded, UnitBits, Extend, BitLength, Abs, ReadAc;
    var n, m := run / 16, run % 16;
    var u := Unit(false, 16 * m + BitLength(Abs(v)), v);
    UnitsBitsAppend(ZeroRuns(n), [u], dcTable, acTable);
    OneUnit(u, dcTable, acTable);
    JoinThree(UnitsBits(ZeroRuns(n), dcTable, acTable), UnitBits(u, dcTable, acTable), rest);
    ReadZeroRuns(n, sofar, dcTable, acTable, UnitBits(u, dcTable, acTable) + rest);
    ReadShortRun(m, v, sofar + Zeros(16 * n), dcTable, acTable, rest);
    assert sofar + Zeros(16 * n) + Zeros(m) == sofar + Zeros(run);
  }

  lemma OneUnit(u: Unit, dcTable: Table, acTable: Table)
    requires AllCoded([u], dcTable, acTable)
    ensures UnitCoded(u, dcTable, acTable) && UnitsBits([u], dcTable, acTable) == UnitBits(u, dcTable, acTable)
  {
    hide UnitBits, UnitCoded;
    assert [u][0] == u && [u][1..] == [];
    assert UnitBits(u, dcTable, acTable) + [] == UnitBits(u, dcTable, acTable);
  }

  /** From coefficient i on, behind `run` zeros. */
  lemma {:induction false} ReadAcOf(block: seq<int>, last: int, i: nat, run: nat, dcTable: Table, acTable: Table, rest: Word)
    requires GoodBlock(block, last) && TableOk(dcTable) && TableOk(acTable)
    requires 1 <= i <= 64 && run < i && forall k :: i - run <= k < i ==> block[k] == 0
    requires AllCoded(AcUnits(block, i, run), dcTable, acTable)
    ensures ReadAc(UnitsBits(AcUnits(block, i, run), dcTable, acTable) + rest, block[..i - run], acTable) == Received(block, rest)
    decreases 64 - i
  {
    hide ReadSymbol, Receive, TableOk, UnitCoded, UnitBits, BitLength, Abs, RunUnits;
    var sofar := block[..i - run];
    if i == 64 {
      assert block[..64] == block;
      if run > 0 {
        var u := Unit(false, EOB, 0);
        OneUnit(u, dcTable, acTable);
        ReadUnit(u, dcTable, acTable, rest);
        NoExtra(rest);
        assert sofar + Zeros(64 - |sofar|) == block;
      } else {
        assert UnitsBits([], dcTable, acTable) + rest == rest;
      }
    } else {
      AcUnitsStep(block, i, run, i + 1);
      if block[i] == 0 {
        ReadAcOf(block, last, i + 1, run + 1, dcTable, acTable, rest);
      } else {
        var v, more := block[i], AcUnits(block, i + 1, 0);
        GoodCoefficient(block, last, i);
        UnitsBitsAppend(RunUnits(run, v), more, dcTable, acTable);
        JoinThree(UnitsBits(RunUnits(run, v), dcTable, acTable), UnitsBits(more, dcTable, acTable), rest);
        ReadRun(run, v, sofar, dcTable, acTable, UnitsBits(more, dcTable, acTable) + rest);
        assert sofar + Zeros(run) + [v] == block[..i + 1];
        ReadAcOf(block, last, i + 1, 0, dcTable, acTable, rest);
      }
    }
  }

  /** A decoder recovers the 64 coefficients of a block from the bits of its symbols. */
  lemma BlockRoundTrip(block: seq<int>, last: int, dcTable: Table, acTable: Table, rest: Word)
    requires GoodBlock(block, last) && TableOk(dcTable) && TableOk(acTable)
    requires AllCoded(BlockUnits(block, last), dcTable, acTable)
    ensures ReadBlock(UnitsBits(BlockUnits(block, last), dcTable, acTable) + rest, last, dcTable, acTable) == Received(block, rest)
  {
    hide ReadSymbol, Receive, TableOk, UnitCoded, UnitBits, BitLength, Abs, AcUnits, ReadAc, Extend;
    var units, ac := BlockUnits(block, last), AcUnits(block, 1, 0);
    var u := units[0];
    UnitsBitsAppend([u], ac, dcTable, acTable);
    OneUnit(u, dcTable, acTable);
    JoinThree(UnitBits(u, dcTable, acTable), UnitsBits(ac, dcTable, acTable), rest);
    ReadUnit(u, dcTable, acTable, UnitsBits(ac, dcTable, acTable) + rest);
    assert block[..1] == [block[0]];
    ReadAcOf(block, last, 1, 0, dcTable, acTable, rest);
  }

  // ----- pass two

  /** The arrays of codes and code sizes hold a table. */
  ghost predicate HoldsTable(codes: array<nat>, codeSizes: array<nat>, t: Table)
    reads codes, codeSizes
  {
    TableOk(t) && codes[..] == t.codes && codeSizes[..] == t.codeSizes
  }

  method PutSymbol(w: ScanWriter, codes: array<nat>, codeSizes: array<nat>, sym: nat, ghost t: Table)
    requires w.Valid() && HoldsTable(codes, codeSizes, t) && HasWord(t, sym)
    requires w.outBuf != codes && w.outBuf != codeSizes
    modifies w, w.outBuf
    ensures w.Valid() && w.Put() == old(w.Put()) + SymbolWord(t, sym) && HoldsTable(codes, codeSizes, t)
  {
    hide TableOk, Bits, Pow2;
    ghost var p := WordIsInList(t, sym);
    assert codes[sym] == t.codes[sym] && codeSizes[sym] == t.codeSizes[sym];
    w.PutBits(codes[sym], codeSizes[sym]);
  }

  /** The magnitude bits of v, negative values less one. */
  method PutExtra(w: ScanWriter, v: int, nbits: nat)
    requires w.Valid() && nbits == BitLength(Abs(v)) <= 16
    modifies w, w.outBuf
    ensures w.Valid() && w.Put() == old(w.Put()) + ExtraWord(v)
  {
    hide Bits, Pow2, BitLength;
    ExtendOfExtra(v);
    var temp := v;
    if temp < 0 { temp := temp - 1; }
    var unit := Power(nbits);
    w.PutBits(temp % unit, nbits);
  }

  lemma NothingBehind(bits: Word)
    ensures bits + ExtraWord(0) == bits
  {
  }

  /** Puts out the zero runs, the symbol and the magnitude of one coefficient. */
  method PutRun(w: ScanWriter, codes: array<nat>, codeSizes: array<nat>, run: nat, v: int, ghost dcTable: Table, ghost t: Table)
    requires w.Valid() && HoldsTable(codes, codeSizes, t) && w.outBuf != codes && w.outBuf != codeSizes
    requires v != 0 && Abs(v) < 32768 && AllCoded(RunUnits(run, v), dcTable, t)
    modifies w, w.outBuf
    ensures w.Valid() && HoldsTable(codes, codeSizes, t)
    ensures w.Put() == old(w.Put()) + UnitsBits(RunUnits(run, v), dcTable, t)
  {
    hide RunUnits, BitLength, Abs, HoldsTable, SymbolWord, ExtraWord, HasWord;
    ghost var before := w.Put();
    var left := run;
    while left >= 16
      invariant w.Valid() && HoldsTable(codes, codeSizes, t) && AllCoded(RunUnits(left, v), dcTable, t)
      invariant before + UnitsBits(RunUnits(run, v), dcTable, t) == w.Put() + UnitsBits(RunUnits(left, v), dcTable, t)
    {
      ghost var u := Unit(false, ZRL, 0);
      RunUnitsLong(left, v);
      UnitsBitsAppend([u], RunUnits(left - 16, v), dcTable, t);
      OneUnit(u, dcTable, t);
      NothingBehind(SymbolWord(t, ZRL));
      JoinThree(w.Put(), SymbolWord(t, ZRL), UnitsBits(RunUnits(left - 16, v), dcTable, t));
      PutSymbol(w, codes, codeSizes, ZRL, t);
      left := left - 16;
    }
    SymbolInByte(left, v);
    NotZero(v);
    var nbits := CountBitsFromOne(if v < 0 then -v else v);
    ghost var u := Unit(false, 16 * left + nbits, v);
    OneUnit(u, dcTable, t);
    JoinThree(w.Put(), SymbolWord(t, 16 * left + nbits), ExtraWord(v));
    PutSymbol(w, codes, codeSizes, 16 * left + nbits, t);
    PutExtra(w, v, nbits);
  }

  /** Puts out the symbols of a block. */
  method CodeCoefficientsPassTwo(block: array<int>, lastDc: array<int>, component: nat, dcCodes: array<nat>, dcSizes: array<nat>,
                                 acCodes: array<nat>, acSizes: array<nat>, w: ScanWriter, ghost dcTable: Table, ghost acTable: Table)
    requires component < lastDc.Length && block.Length == 64 && lastDc != block && w.Valid()
    requires w.outBuf !in {dcCodes, dcSizes, acCodes, acSizes}
    requires HoldsTable(dcCodes, dcSizes, dcTable) && HoldsTable(acCodes, acSizes, acTable)
    requires GoodBlock(block[..], lastDc[component])
    requires AllCoded(BlockUnits(block[..], lastDc[component]), dcTable, acTable)
    modifies lastDc, w, w.outBuf
    ensures lastDc[..] == old(lastDc[..])[component := block[0]] && w.Valid()
    ensures w.Put() == old(w.Put()) + UnitsBits(BlockUnits(block[..], old(lastDc[component])), dcTable, acTable)
  {
    hide RunUnits, BitLength, AcUnits, Abs, HoldsTable, SymbolWord, ExtraWord, HasWord;
    ghost var b, last, before := block[..], lastDc[component], w.Put();
    var diff := block[0] - lastDc[component];
    lastDc[component] := block[0];
    DcSymbolSmall(diff);
    NotZero(diff);
    var nbits := CountBits(if diff < 0 then -diff else diff);
    ghost var first, ac := Unit(true, nbits, diff), AcUnits(b, 1, 0);
    UnitsBitsAppend([first], ac, dcTable, acTable);
    OneUnit(first, dcTable, acTable);
    JoinThree(before, SymbolWord(dcTable, nbits), ExtraWord(diff));
    NoMagnitude(diff, w.Put() + SymbolWord(dcTable, nbits));
    PutSymbol(w, dcCodes, dcSizes, nbits, dcTable);
    if nbits != 0 { PutExtra(w, diff, nbits); }
    JoinThree(before, UnitsBits([first], dcTable, acTable), UnitsBits(ac, dcTable, acTable));
    ghost var all := before + UnitsBits(BlockUnits(b, last), dcTable, acTable);
    var run := 0;
    for i := 1 to 64
      invariant lastDc[..] == old(lastDc[..])[component := block[0]] && block[..] == b && 0 <= run
      invariant w.Valid() && HoldsTable(acCodes, acSizes, acTable) && AllCoded(AcUnits(b, i, run), dcTable, acTable)
      invariant w.Put() + UnitsBits(AcUnits(b, i, run), dcTable, acTable) == all
    {
      AcUnitsStep(b, i, run, i + 1);
      if block[i] == 0 {
        run := run + 1;
      } else {
        GoodCoefficient(b, last, i);
        UnitsBitsAppend(RunUnits(run, b[i]), AcUnits(b, i + 1, 0), dcTable, acTable);
        JoinThree(w.Put(), UnitsBits(RunUnits(run, b[i]), dcTable, acTable), UnitsBits(AcUnits(b, i + 1, 0), dcTable, acTable));
        PutRun(w, acCodes, acSizes, run, block[i], dcTable, acTable);
        run := 0;
      }
    }
    LastUnits(b, run);
    if run != 0 {
      OneUnit(Unit(false, EOB, 0), dcTable, acTable);
      NothingBehind(SymbolWord(acTable, EOB));
      PutSymbol(w, acCodes, acSizes, EOB, acTable);
    } else {
      assert w.Put() + [] == w.Put();
    }
  }

  /** A zero difference has no magnitude bits. */
  lemma NoMagnitude(v: int, bits: Word)
    ensures BitLength(Abs(v)) == 0 ==> bits + ExtraWord(v) == bits
  {
  }

  // ----- whole scans

  /** A block of one of three components; the first has its own pair of tables. */
  datatype CodedBlock = CodedBlock(component: nat, block: seq<int>)

  function NextLast(lasts: seq<int>, b: CodedBlock): (r: seq<int>)
    requires |lasts| == 3 && b.component < 3 && |b.block| == 64
    ensures |r| == 3
  {
    lasts[b.component := b.block[0]]
  }

  ghost predicate GoodScan(blocks: seq<CodedBlock>, lasts: seq<int>)
    requires |lasts| == 3
  {
    blocks == [] ||
    (&& blocks[0].component < 3 && GoodBlock(blocks[0].block, lasts[blocks[0].component])
     && GoodScan(blocks[1..], NextLast(lasts, blocks[0])))
  }

  /** All symbols put out with the tables of the first component, or of the other two. */
  ghost function ScanUnits(blocks: seq<CodedBlock>, lasts: seq<int>, others: bool): (units: seq<Unit>)
    requires |lasts| == 3 && GoodScan(blocks, lasts)
  {
    if blocks == [] then []
    else
      (if (blocks[0].component > 0) == others then BlockUnits(blocks[0].block, lasts[blocks[0].component]) else [])
      + ScanUnits(blocks[1..], NextLast(lasts, blocks[0]), others)
  }

  /** The four tables of an image. */
  datatype Tables = Tables(dc: Table, ac: Table, otherDc: Table, otherAc: Table)

  function DcTable(t: Tables, component: nat): Table { if component > 0 then t.otherDc else t.dc }

  function AcTable(t: Tables, component: nat): Table { if component > 0 then t.otherAc else t.ac }

  ghost predicate TablesOk(t: Tables) {
    TableOk(t.dc) && TableOk(t.ac) && TableOk(t.otherDc) && TableOk(t.otherAc)
  }

  ghost predicate ScanCoded(blocks: seq<CodedBlock>, lasts: seq<int>, t: Tables)
    requires |lasts| == 3 && GoodScan(blocks, lasts)
  {
    AllCoded(ScanUnits(blocks, lasts, false), t.dc, t.ac) && AllCoded(ScanUnits(blocks, lasts, true), t.otherDc, t.otherAc)
  }

  lemma ScanCodedHead(blocks: seq<CodedBlock>, lasts: seq<int>, t: Tables)
    requires |lasts| == 3 && GoodScan(blocks, lasts) && blocks != [] && ScanCoded(blocks, lasts, t)
    ensures var b := blocks[0];
      && AllCoded(BlockUnits(b.block, lasts[b.component]), DcTable(t, b.component), AcTable(t, b.component))
      && ScanCoded(blocks[1..], NextLast(lasts, b), t)
  {
    hide UnitCoded, BlockUnits;
    var b := blocks[0];
    var units := BlockUnits(b.block, lasts[b.component]);
    var next := NextLast(lasts, b);
    var zero, more := ScanUnits(blocks[1..], next, false), ScanUnits(blocks[1..], next, true);
    assert [] + zero == zero && [] + more == more;
    if b.component > 0 { CodedParts(units, more, t.otherDc, t.otherAc); } else { CodedParts(units, zero, t.dc, t.ac); }
  }

  lemma CodedParts(a: seq<Unit>, b: seq<Unit>, dcTable: Table, acTable: Table)
    requires AllCoded(a + b, dcTable, acTable)
    ensures AllCoded(a, dcTable, acTable) && AllCoded(b, dcTable, acTable)
  {
    hide UnitCoded;
    forall i | 0 <= i < |a| ensures UnitCoded(a[i], dcTable, acTable) { assert (a + b)[i] == a[i]; }
    forall i | 0 <= i < |b| ensures UnitCoded(b[i], dcTable, acTable) { assert (a + b)[|a| + i] == b[i]; }
  }

  ghost function ScanBits(blocks: seq<CodedBlock>, lasts: seq<int>, t: Tables): (bits: Word)
    requires |lasts| == 3 && GoodScan(blocks, lasts) && ScanCoded(blocks, lasts, t)
  {
    if blocks == [] then []
    else
      var b := blocks[0];
      ScanCodedHead(blocks, lasts, t);
      UnitsBits(BlockUnits(b.block, lasts[b.component]), DcTable(t, b.component), AcTable(t, b.component))
      + ScanBits(blocks[1..], NextLast(lasts, b), t)
  }

  /** A decoder reads a scan whose blocks belong to these components in turn. */
  function ReadScan(bits: Word, components: seq<nat>, lasts: seq<int>, t: Tables): Received<seq<CodedBlock>>
    requires |lasts| == 3
    decreases |components|
  {
    if components == [] then Received([], bits)
    else if components[0] >= 3 then Fail
    else
      var c := components[0];
      match ReadBlock(bits, lasts[c], DcTable(t, c), AcTable(t, c))
      case Fail => Fail
      case Received(block, rest) =>
        if |block| != 64 then Fail
        else
          match ReadScan(rest, components[1..], lasts[c := block[0]], t)
          case Fail => Fail
          case Received(blocks, rest2) => Received([CodedBlock(c, block)] + blocks, rest2)
  }

  function Components(blocks: seq<CodedBlock>): (r: seq<nat>)
    ensures |r| == |blocks|
  {
    if blocks == [] then [] else [blocks[0].component] + Components(blocks[1..])
  }

  lemma {:induction false} ScanRoundTrip(blocks: seq<CodedBlock>, lasts: seq<int>, t: Tables, rest: Word)
    requires |lasts| == 3 && GoodScan(blocks, lasts) && TablesOk(t) && ScanCoded(blocks, lasts, t)
    ensures ReadScan(ScanBits(blocks, lasts, t) + rest, Components(blocks), lasts, t) == Received(blocks, rest)
  {
    hide ReadBlock, UnitsBits, AllCoded, TableOk, BlockUnits;
    if blocks == [] {
      assert [] + rest == rest;
    } else {
      var b := blocks[0];
      ScanCodedHead(blocks, lasts, t);
      var dc, ac, last := DcTable(t, b.component), AcTable(t, b.component), lasts[b.component];
      var next := NextLast(lasts, b);
      JoinThree(UnitsBits(BlockUnits(b.block, last), dc, ac), ScanBits(blocks[1..], next, t), rest);
      BlockRoundTrip(b.block, last, dc, ac, ScanBits(blocks[1..], next, t) + rest);
      ScanRoundTrip(blocks[1..], next, t, rest);
      assert blocks == [b] + blocks[1..];
      assert Components(blocks)[1..] == Components(blocks[1..]);
    }
  }

  /** From scan bytes as they are stored, stuffing, padding and all, a decoder recovers every block. */
  lemma StoredScanIsRead(blocks: seq<CodedBlock>, t: Tables, plain: seq<nat>, pad: Word)
    requires GoodScan(blocks, [0, 0, 0]) && TablesOk(t) && ScanCoded(blocks, [0, 0, 0], t)
    requires ByteBits(plain) == ScanBits(blocks, [0, 0, 0], t) + pad
    ensures ReadScan(ByteBits(Unstuffed(Stuffed(plain))), Components(blocks), [0, 0, 0], t) == Received(blocks, pad)
  {
    hide ReadScan, ScanBits, ScanCoded, TablesOk, GoodScan;
    UnstuffedOfStuffed(plain);
    ScanRoundTrip(blocks, [0, 0, 0], t, pad);
  }

  // ----- what the first pass counts is enough for the second

  /** A table built from counts: the optimiser's list, and the codes computed from it. */
  ghost predicate BuiltFrom(t: Table, count: seq<nat>, bits: seq<nat>) {
    && JpegTable(count, bits, t.val) && t.sizes == Sizes(bits)
    && TableCodes(t.codes, t.codeSizes, t.sizes, t.val, |t.sizes|)
  }

  /** Every counted symbol has a code of 1 to 16 bits that is not all ones. */
  lemma CountedHasWord(t: Table, count: seq<nat>, bits: seq<nat>, sym: nat)
    requires BuiltFrom(t, count, bits) && sym < |count| && count[sym] > 0
    ensures TableOk(t) && HasWord(t, sym) && 1 <= |SymbolWord(t, sym)| <= 16 && !AllOnes(SymbolWord(t, sym))
  {
    hide Sizes, Fits, Ascending;
    assert sym in t.val[..|t.sizes|];
    var p :| 0 <= p < |t.sizes| && t.val[p] == sym;
    assert HasCode(t.codes, t.codeSizes, t.sizes, t.val, p);
    assert SymbolWord(t, sym) == CodeWord(t.sizes, p);
  }

  /** Counts of the first pass over all units, in DC tables only for the twelve symbols a difference can have. */
  ghost predicate CountsAll(units: seq<Unit>, dcCount: seq<nat>, acCount: seq<nat>) {
    && |dcCount| == 12 && |acCount| == 256
    && (forall sym :: 0 <= sym < 12 ==> dcCount[sym] == UnitCount(units, true, sym))
    && (forall sym :: 0 <= sym < 256 ==> acCount[sym] == UnitCount(units, false, sym))
  }

  /** Bit lengths up to 11; and runs with bit lengths from 1 on, but for the two symbols without. */
  predicate SmallUnit(u: Unit) {
    if u.dc then u.symbol < 12 else u.symbol < 256 && (u.symbol % 16 != 0 || u.symbol == EOB || u.symbol == ZRL)
  }

  lemma {:induction false} AcUnitsSmall(block: seq<int>, last: int, i: nat, run: nat)
    requires GoodBlock(block, last) && 1 <= i <= 64
    ensures forall k :: 0 <= k < |AcUnits(block, i, run)| ==> SmallUnit(AcUnits(block, i, run)[k])
    decreases 64 - i
  {
    if i < 64 {
      AcUnitsStep(block, i, run, i + 1);
      if block[i] == 0 {
        AcUnitsSmall(block, last, i + 1, run + 1);
      } else {
        SymbolInByte(run % 16, block[i]);
        AcUnitsSmall(block, last, i + 1, 0);
      }
    }
  }

  lemma BlockUnitsSmall(block: seq<int>, last: int)
    requires GoodBlock(block, last)
    ensures forall k :: 0 <= k < |BlockUnits(block, last)| ==> SmallUnit(BlockUnits(block, last)[k])
  {
    DcSymbolSmall(block[0] - last);
    AcUnitsSmall(block, last, 1, 0);
  }

  lemma {:induction false} ScanUnitsSmall(blocks: seq<CodedBlock>, lasts: seq<int>, others: bool)
    requires |lasts| == 3 && GoodScan(blocks, lasts)
    ensures forall k :: 0 <= k < |ScanUnits(blocks, lasts, others)| ==> SmallUnit(ScanUnits(blocks, lasts, others)[k])
  {
    hide SmallUnit, BlockUnits;
    if blocks != [] {
      BlockUnitsSmall(blocks[0].block, lasts[blocks[0].component]);
      ScanUnitsSmall(blocks[1..], NextLast(lasts, blocks[0]), others);
    }
  }

  /** The symbols the second pass puts out are the ones the first pass counted: tables built from the counts have
      a code for each of them. */
  lemma CountedIsCoded(units: seq<Unit>, dcCount: seq<nat>, acCount: seq<nat>, dcBits: seq<nat>, acBits: seq<nat>,
                       dcTable: Table, acTable: Table)
    requires CountsAll(units, dcCount, acCount) && forall k :: 0 <= k < |units| ==> SmallUnit(units[k])
    requires BuiltFrom(dcTable, dcCount, dcBits) && BuiltFrom(acTable, acCount, acBits)
    ensures AllCoded(units, dcTable, acTable)
  {
    hide BuiltFrom, UnitCount, HasWord;
    forall k | 0 <= k < |units| ensures UnitCoded(units[k], dcTable, acTable) {
      UnitIsCounted(units, k);
      assert SmallUnit(units[k]);
      if units[k].dc {
        CountedHasWord(dcTable, dcCount, dcBits, units[k].symbol);
      } else {
        CountedHasWord(acTable, acCount, acBits, units[k].symbol);
      }
    }
  }

  /** So both passes over the same blocks agree: with the tables built from the counts all of the scan can be coded. */
  lemma PassesAgree(blocks: seq<CodedBlock>, others: bool, dcTable: Table, acTable: Table, dcCount: seq<nat>, acCount: seq<nat>,
                    dcBits: seq<nat>, acBits: seq<nat>)
    requires GoodScan(blocks, [0, 0, 0]) && CountsAll(ScanUnits(blocks, [0, 0, 0], others), dcCount, acCount)
    requires BuiltFrom(dcTable, dcCount, dcBits) && BuiltFrom(acTable, acCount, acBits)
    ensures AllCoded(ScanUnits(blocks, [0, 0, 0], others), dcTable, acTable) && TableOk(dcTable) && TableOk(acTable)
  {
    hide BuiltFrom, CountsAll, GoodScan, ScanUnits;
    ScanUnitsSmall(blocks, [0, 0, 0], others);
    CountedIsCoded(ScanUnits(blocks, [0, 0, 0], others), dcCount, acCount, dcBits, acBits, dcTable, acTable);
    BuiltIsOk(dcTable, dcCount, dcBits);
    BuiltIsOk(acTable, acCount, acBits);
  }

  lemma BuiltIsOk(t: Table, count: seq<nat>, bits: seq<nat>)
    requires BuiltFrom(t, count, bits)
    ensures TableOk(t)
  {
    hide Sizes, Fits, Ascending;
  }
}
