/** The coding of coefficients (sections F.1.2 and F.2.2 of ITU-T T.81) in its own terms: laws of the definitions that encoder
    and decoder share, by numbers. */
module JpegFormat {
  import opened Sequences
  import opened Arithmetic
  import opened PrefixCodes
  import opened CanonicalCodes
  import opened CanonicalOrder
  import opened JpegTables
  import opened JpegBits
  import opened JpegScan

  // ----- magnitudes

  /** The category of a value (tables F.1 and F.2). */
  lemma Category(v: int, n: nat)
    ensures BitLength(Abs(v)) == n <==> if n == 0 then v == 0 else Pow2(n - 1) <= Abs(v) < Pow2(n)
  {
    var m := BitLength(Abs(v));
    BitLengthBounds(Abs(v));
    if m < n { Pow2Monotone(m, n - 1); }
    if n < m { Pow2Monotone(n, m - 1); }
  }

  function Complement(word: Word): (r: Word)
    ensures |r| == |word|
  {
    seq(|word|, i requires 0 <= i < |word| => !word[i])
  }

  lemma {:induction false} ComplementBits(x: nat, n: nat)
    requires x < Pow2(n)
    ensures Bits(Pow2(n) - 1 - x, n) == Complement(Bits(x, n))
  {
    if n > 0 {
      var y := Pow2(n) - 1 - x;
      assert y % 2 != x % 2 && y / 2 == Pow2(n - 1) - 1 - x / 2;
      ComplementBits(x / 2, n - 1);
    }
  }

  /** A positive value has its own bits, the highest first; its opposite has the complement. */
  lemma ExtraBits(v: int)
    requires v > 0
    ensures ExtraWord(0) == [] && |ExtraWord(v)| == BitLength(v) > 0
    ensures ExtraWord(v) == Bits(v, BitLength(v)) && ExtraWord(v)[0]
    ensures ExtraWord(-v) == Complement(ExtraWord(v))
  {
    var n := BitLength(v);
    BitLengthBounds(v);
    ModOf(v, Pow2(n), 0, v);
    ModOf(-v - 1, Pow2(n), -1, Pow2(n) - 1 - v);
    ComplementBits(v, n);
    HighestBit(v, n);
  }

  lemma {:induction false} HighestBit(v: nat, n: nat)
    requires n > 0 && v < Pow2(n)
    ensures Bits(v, n)[0] <==> v >= Pow2(n - 1)
  {
    if n > 1 { HighestBit(v / 2, n - 1); }
  }

  function Signed(word: Word): int {
    if word == [] then 0 else if word[0] then Value(word) else 0 - Value(Complement(word))
  }

  /** A word that starts with a one is a positive number, one that starts with a zero the opposite of its complement. */
  lemma {:induction false} SignedWord(word: Word)
    requires word != []
    ensures Extend(Value(word), |word|) == Signed(word)
    ensures word[0] <==> Signed(word) > 0
  {
    ValueBounds(word);
    ValueOfComplement(word);
  }

  lemma {:induction false} ValueBounds(word: Word)
    requires word != []
    ensures Value(word) < Pow2(|word|) && (word[0] <==> Value(word) >= Pow2(|word| - 1))
  {
    if |word| > 1 { ValueBounds(word[..|word| - 1]); }
  }

  lemma {:induction false} ValueOfComplement(word: Word)
    ensures Value(word) + Value(Complement(word)) == Pow2(|word|) - 1
  {
    if word != [] {
      var init := word[..|word| - 1];
      ValueOfComplement(init);
      assert Complement(word)[..|word| - 1] == Complement(init);
    }
  }

  // ----- the units of a block

  /** So many zeros. */
  predicate ZeroFrom(block: seq<int>, i: nat, k: nat) {
    i <= k <= |block| && forall j :: i <= j < k ==> block[j] == 0
  }

  lemma {:induction false} PastZeros(block: seq<int>, i: nat, k: nat, run: nat)
    requires ZeroFrom(block, i, k)
    ensures AcUnits(block, i, run) == AcUnits(block, k, run + (k - i))
    decreases k - i
  {
    if i < k { PastZeros(block, i + 1, k, run + 1); }
  }

  /** A coefficient behind zeros: the symbol 11110000 for each sixteen of them, then one that has the rest in its upper and the
      category in its lower half. */
  lemma NextCoefficient(block: seq<int>, i: nat, k: nat)
    requires k < |block| && ZeroFrom(block, i, k) && block[k] != 0
    ensures var runs, symbol := seq((k - i) / 16, _ => Unit(false, 0xF0, 0)), 16 * ((k - i) % 16) + BitLength(Abs(block[k]));
      AcUnits(block, i, 0) == runs + [Unit(false, symbol, block[k])] + AcUnits(block, k + 1, 0)
  {
    PastZeros(block, i, k, 0);
    assert ZeroRuns((k - i) / 16) == seq((k - i) / 16, _ => Unit(false, 0xF0, 0));
  }

  /** Zeros up to the end: the symbol 0, if there are any. */
  lemma ZerosAtEnd(block: seq<int>, i: nat)
    requires ZeroFrom(block, i, |block|)
    ensures AcUnits(block, i, 0) == if i < |block| then [Unit(false, 0, 0)] else []
  {
    PastZeros(block, i, |block|, 0);
  }

  // ----- what a decoder makes of them

  function SomeZeros(n: nat): seq<int> { seq(n, _ => 0) }

  /** 11110000 stands for sixteen zeros, 0 for all that are left. */
  lemma ReadsZeros(t: Table, sofar: seq<int>, rest: Word)
    requires TableOk(t) && |sofar| < 64
    ensures HasWord(t, 0xF0) ==> ReadAc(SymbolWord(t, 0xF0) + rest, sofar, t) == ReadAc(rest, sofar + SomeZeros(16), t)
    ensures HasWord(t, 0) ==> ReadAc(SymbolWord(t, 0) + rest, sofar, t) == Received(sofar + SomeZeros(64 - |sofar|), rest)
  {
    hide ReadSymbol, SymbolWord, TableOk;
    assert Zeros(16) == SomeZeros(16) && Zeros(64 - |sofar|) == SomeZeros(64 - |sofar|);
    if HasWord(t, 0xF0) { ReadSymbolOf(t, 0xF0, rest); }
    if HasWord(t, 0) { ReadSymbolOf(t, 0, rest); }
  }

  /** Any other symbol stands for zeros and a value of so many bits. */
  lemma ReadsCoefficient(t: Table, sofar: seq<int>, zeros: nat, word: Word, rest: Word)
    requires TableOk(t) && |sofar| < 64 && zeros < 16 && 1 <= |word| < 16 && HasWord(t, 16 * zeros + |word|)
    ensures ReadAc(SymbolWord(t, 16 * zeros + |word|) + (word + rest), sofar, t)
      == ReadAc(rest, sofar + SomeZeros(zeros) + [Signed(word)], t)
  {
    hide ReadSymbol, SymbolWord, TableOk, Value, Extend, Complement;
    assert Zeros(zeros) == SomeZeros(zeros);
    ReadSymbolOf(t, 16 * zeros + |word|, word + rest);
    assert (word + rest)[..|word|] == word && (word + rest)[|word|..] == rest;
    SignedWord(word);
  }

  /** The symbol of a first coefficient is the number of bits of its difference. */
  lemma ReadsFirst(dcTable: Table, acTable: Table, last: int, word: Word, rest: Word)
    requires TableOk(dcTable) && HasWord(dcTable, |word|)
    ensures ReadBlock(SymbolWord(dcTable, |word|) + (word + rest), last, dcTable, acTable)
      == ReadAc(rest, [last + Signed(word)], acTable)
  {
    hide ReadSymbol, SymbolWord, TableOk, Value, Extend, Complement, ReadAc;
    ReadSymbolOf(dcTable, |word|, word + rest);
    assert (word + rest)[..|word|] == word && (word + rest)[|word|..] == rest;
    if word != [] { SignedWord(word); } else { NoBits(Value(word)); }
  }

  lemma NoBits(e: nat)
    ensures Extend(e, 0) == 0
  {
  }

  // ----- bits of scan bytes

  /** Bytes are read from the highest bit on. */
  lemma {:induction false} BitOfScanByte(bytes: seq<nat>, i: nat, j: nat)
    requires i < |bytes| && j < 8
    ensures JpegBits.ByteBits(bytes)[8 * i + j] == (bytes[i] / Pow2(7 - j) % 2 == 1)
    decreases |bytes|
  {
    hide Bits, Pow2;
    if i < |bytes| - 1 {
      BitOfScanByte(bytes[..|bytes| - 1], i, j);
    } else {
      BitOfCode(bytes[i], 8, j);
    }
  }

  // ----- components

  /** The second and the third component share the second pair of tables, and each follows its own last block. */
  lemma Components(t: Tables, lasts: seq<int>, b: CodedBlock, c: nat)
    requires |lasts| == 3 && b.component < 3 && |b.block| == 64 && c < 3
    ensures DcTable(t, c) == (if c == 0 then t.dc else t.otherDc) && AcTable(t, c) == if c == 0 then t.ac else t.otherAc
    ensures NextLast(lasts, b)[c] == if c == b.component then b.block[0] else lasts[c]
  {
  }
}
