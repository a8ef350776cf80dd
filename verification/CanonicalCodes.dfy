/** Canonical Huffman codes (section 3.2.2 of RFC 1951): code words given by code lengths alone. */
module CanonicalCodes {
  import opened Arithmetic
  import opened PrefixCodes

  // ----- words and numbers, most significant bit first

  function Value(word: Word): (v: nat)
  {
    if word == [] then 0
    else 2 * Value(word[..|word| - 1]) + if word[|word| - 1] then 1 else 0
  }

  function Bits(v: nat, len: nat): (word: Word)
    ensures |word| == len
  {
    if len == 0 then [] else Bits(v / 2, len - 1) + [v % 2 == 1]
  }

  /** A word as a number whose lowest bit is sent first. */
  function Reversed(word: Word): (r: nat)
  {
    if word == [] then 0 else (if word[0] then 1 else 0) + 2 * Reversed(word[1..])
  }

  lemma {:induction false} ValueSnoc(word: Word, b: bool)
    ensures Value(word + [b]) == 2 * Value(word) + if b then 1 else 0
  {
    assert (word + [b])[..|word|] == word;
  }

  lemma {:induction false} ValueBound(word: Word)
    ensures Value(word) < Pow2(|word|)
  {
    if word != [] { ValueBound(word[..|word| - 1]); }
  }

  lemma {:induction false} ValueOfBits(v: nat, len: nat)
    requires v < Pow2(len)
    ensures Value(Bits(v, len)) == v
  {
    if len > 0 {
      ValueOfBits(v / 2, len - 1);
      ValueSnoc(Bits(v / 2, len - 1), v % 2 == 1);
    }
  }

  lemma {:induction false} BitsOfValue(word: Word)
    ensures Bits(Value(word), |word|) == word
  {
    if word != [] {
      var init, b := word[..|word| - 1], word[|word| - 1];
      BitsOfValue(init);
      assert Value(word) / 2 == Value(init) && (Value(word) % 2 == 1 <==> b);
      assert word == init + [b];
    }
  }

  lemma {:induction false} EqualValues(a: Word, b: Word)
    requires |a| == |b| && Value(a) == Value(b)
    ensures a == b
  {
    BitsOfValue(a);
    BitsOfValue(b);
  }

  /** Dropping low bits: the value of a word stays between bounds set by its prefix. */
  lemma {:induction false} ValueOfPrefix(word: Word, k: nat)
    requires k <= |word|
    ensures Value(word[..k]) * Pow2(|word| - k) <= Value(word) < (Value(word[..k]) + 1) * Pow2(|word| - k)
  {
    if k == |word| {
      assert word[..k] == word;
    } else {
      ValueOfPrefix(word[..|word| - 1], k);
      assert word[..|word| - 1][..k] == word[..k];
      DoubleBounds(Value(word[..k]), Pow2(|word| - 1 - k), Value(word[..|word| - 1]), Value(word));
    }
  }

  lemma DoubleBounds(p: nat, unit: nat, v: nat, w: nat)
    requires p * unit <= v < (p + 1) * unit
    requires w == 2 * v || w == 2 * v + 1
    ensures p * (2 * unit) <= w < (p + 1) * (2 * unit)
  {
    assert p * (2 * unit) == 2 * (p * unit);
    assert (p + 1) * (2 * unit) == 2 * ((p + 1) * unit);
  }

  predicate AllOnes(word: Word) {
    forall i :: 0 <= i < |word| ==> word[i]
  }

  lemma {:induction false} OnesWord(len: nat)
    ensures AllOnes(Bits(Pow2(len) - 1, len))
  {
    if len > 0 {
      OnesWord(len - 1);
      assert (Pow2(len) - 1) / 2 == Pow2(len - 1) - 1 && (Pow2(len) - 1) % 2 == 1;
    }
  }

  // ----- canonical codes for a vector of code lengths (0 means the symbol is not used)

  function CountOf(sizes: seq<nat>, len: nat): (r: nat)
    ensures r <= |sizes|
  {
    if sizes == [] then 0
    else CountOf(sizes[..|sizes| - 1], len) + if sizes[|sizes| - 1] == len then 1 else 0
  }

  /** The first code of length len. */
  function First(sizes: seq<nat>, len: nat): (r: nat)
  {
    if len <= 1 then 0 else 2 * (First(sizes, len - 1) + CountOf(sizes, len - 1))
  }

  /** One past the last code of length len. */
  function Past(sizes: seq<nat>, len: nat): (r: nat)
  {
    First(sizes, len) + CountOf(sizes, len)
  }

  lemma FirstIsTwicePast(sizes: seq<nat>, len: nat)
    requires len >= 2
    ensures First(sizes, len) == 2 * Past(sizes, len - 1)
  {
  }

  lemma FirstToPast(sizes: seq<nat>, len: nat)
    ensures First(sizes, len) <= Past(sizes, len)
  {
  }

  lemma TwiceProduct(a: nat, b: nat)
    ensures a * (2 * b) == 2 * (a * b)
  {
  }

  /** Beyond the longest length in use, the space only doubles. */
  lemma {:induction false} PastDoubles(sizes: seq<nat>, len: nat, more: nat)
    requires len >= 1 && forall l :: len < l <= len + more ==> CountOf(sizes, l) == 0
    ensures Past(sizes, len + more) == Past(sizes, len) * Pow2(more)
  {
    hide First;
    if more > 0 {
      PastDoubles(sizes, len, more - 1);
      FirstIsTwicePast(sizes, len + more);
      TwiceProduct(Past(sizes, len), Pow2(more - 1));
    }
  }

  predicate Used(sizes: seq<nat>, sym: nat) {
    sym < |sizes| && sizes[sym] > 0
  }

  /** Codes of one length are handed out in symbol order. */
  function Code(sizes: seq<nat>, sym: nat): (r: nat)
    requires Used(sizes, sym)
  {
    First(sizes, sizes[sym]) + CountOf(sizes[..sym], sizes[sym])
  }

  function CodeWord(sizes: seq<nat>, sym: nat): (word: Word)
    requires Used(sizes, sym)
    ensures |word| == sizes[sym]
  {
    Bits(Code(sizes, sym), sizes[sym])
  }

  /** No length is over the limit, and no code needs more bits than it has. */
  ghost predicate Fits(sizes: seq<nat>, limit: nat) {
    (forall i :: 0 <= i < |sizes| ==> sizes[i] <= limit) && Past(sizes, limit) <= Pow2(limit)
  }

  /** The codes use up the code space. */
  ghost predicate Complete(sizes: seq<nat>, limit: nat) {
    (forall i :: 0 <= i < |sizes| ==> sizes[i] <= limit) && limit >= 1 && Past(sizes, limit) == Pow2(limit)
  }

  lemma {:induction false} CountOfPrefix(sizes: seq<nat>, k: nat, len: nat)
    requires k <= |sizes|
    ensures CountOf(sizes[..k], len) <= CountOf(sizes, len)
    ensures k < |sizes| && sizes[k] == len ==> CountOf(sizes[..k], len) < CountOf(sizes, len)
    ensures k < |sizes| ==> CountOf(sizes[..k + 1], len) == CountOf(sizes[..k], len) + if sizes[k] == len then 1 else 0
  {
    if k == |sizes| {
      assert sizes[..k] == sizes;
    } else if k == |sizes| - 1 {
      assert sizes[..k + 1] == sizes;
    } else {
      var init := sizes[..|sizes| - 1];
      CountOfPrefix(init, k, len);
      assert init[..k] == sizes[..k] && init[..k + 1] == sizes[..k + 1];
    }
  }

  lemma {:induction false} CodeInRange(sizes: seq<nat>, sym: nat)
    requires Used(sizes, sym)
    ensures First(sizes, sizes[sym]) <= Code(sizes, sym) < Past(sizes, sizes[sym])
  {
    CountOfPrefix(sizes, sym, sizes[sym]);
  }

  /** Longer codes start beyond all extensions of the shorter ones. */
  lemma {:induction false} FirstBeyond(sizes: seq<nat>, len: nat, more: nat)
    requires len >= 1 && more >= 1
    ensures Past(sizes, len) * Pow2(more) <= First(sizes, len + more)
  {
    hide First, Past;
    FirstIsTwicePast(sizes, len + more);
    if more > 1 {
      FirstBeyond(sizes, len, more - 1);
      FirstToPast(sizes, len + more - 1);
    }
    TwiceProduct(Past(sizes, len), Pow2(more - 1));
  }

  /** If the longest codes fit, all do. */
  lemma {:induction false} PastFits(sizes: seq<nat>, limit: nat, len: nat)
    requires Past(sizes, limit) <= Pow2(limit) && 1 <= len <= limit
    ensures Past(sizes, len) <= Pow2(len)
  {
    if len < limit {
      FirstBeyond(sizes, len, limit - len);
      Pow2Add(len, limit - len);
      CancelFactor(Past(sizes, len), Pow2(len), Pow2(limit - len));
    }
  }

  lemma CancelFactor(a: nat, b: nat, unit: nat)
    requires unit > 0 && a * unit <= b * unit
    ensures a <= b
  {
    assert b < a ==> (a - b) * unit > 0;
  }

  lemma {:induction false} CodeValue(sizes: seq<nat>, limit: nat, sym: nat)
    requires Fits(sizes, limit) && Used(sizes, sym)
    ensures Code(sizes, sym) < Pow2(sizes[sym])
    ensures Value(CodeWord(sizes, sym)) == Code(sizes, sym)
  {
    CodeInRange(sizes, sym);
    PastFits(sizes, limit, sizes[sym]);
    ValueOfBits(Code(sizes, sym), sizes[sym]);
  }

  lemma {:induction false} RankDistinct(sizes: seq<nat>, i: nat, j: nat)
    requires i < j < |sizes| && sizes[i] == sizes[j]
    ensures CountOf(sizes[..i], sizes[i]) < CountOf(sizes[..j], sizes[j])
  {
    CountOfPrefix(sizes[..j], i, sizes[i]);
    assert sizes[..j][..i] == sizes[..i];
  }

  /** A bit string that starts with a code word has left all shorter lengths behind. */
  lemma {:induction false} BeyondShorter(sizes: seq<nat>, word: Word, len: nat)
    requires 1 <= len < |word| && First(sizes, |word|) <= Value(word)
    ensures Past(sizes, len) <= Value(word[..len])
  {
    FirstBeyond(sizes, len, |word| - len);
    ValueOfPrefix(word, len);
    CancelStrictly(Past(sizes, len), Value(word[..len]) + 1, Pow2(|word| - len));
  }

  lemma CancelStrictly(a: nat, b: nat, unit: nat)
    requires unit > 0 && a * unit < b * unit
    ensures a < b
  {
    assert b <= a ==> (a - b) * unit >= 0;
  }

  /** Distinct symbols have code words of which neither is a prefix of the other. */
  lemma {:induction false} CodesArePrefixFree(sizes: seq<nat>, limit: nat, i: nat, j: nat)
    requires Fits(sizes, limit) && Used(sizes, i) && Used(sizes, j) && i != j
    ensures !(CodeWord(sizes, i) <= CodeWord(sizes, j))
  {
    var a, b := CodeWord(sizes, i), CodeWord(sizes, j);
    CodeValue(sizes, limit, i);
    CodeValue(sizes, limit, j);
    CodeInRange(sizes, i);
    CodeInRange(sizes, j);
    hide Value, CodeWord, First;
    if a <= b {
      assert b[..|a|] == a;
      if |a| < |b| {
        BeyondShorter(sizes, b, |a|);
      } else {
        assert a == b;
        RankDistinct(sizes, if i < j then i else j, if i < j then j else i);
      }
    }
  }

  // ----- decoding one bit at a time

  /** The symbol that has code First(len) + rank. */
  function SymbolAt(sizes: seq<nat>, len: nat, rank: nat): (sym: nat)
    requires rank < CountOf(sizes, len)
    ensures sym < |sizes| && sizes[sym] == len && CountOf(sizes[..sym], len) == rank
  {
    var last := |sizes| - 1;
    if sizes[last] == len && CountOf(sizes[..last], len) == rank then last
    else
      var sym := SymbolAt(sizes[..last], len, rank);
      assert sizes[..last][..sym] == sizes[..sym];
      sym
  }

  datatype Decoded = NoSymbol | Symbol(sym: nat, len: nat)

  /** Reads bits until they form a code, having found none of fewer than len bits. */
  function DecodeFrom(sizes: seq<nat>, limit: nat, bits: Word, len: nat): (r: Decoded)
    decreases limit + 1 - len
  {
    if len > limit || len > |bits| then NoSymbol
    else
      var v := Value(bits[..len]);
      if First(sizes, len) <= v < Past(sizes, len) then Symbol(SymbolAt(sizes, len, v - First(sizes, len)), len)
      else DecodeFrom(sizes, limit, bits, len + 1)
  }

  function Decode(sizes: seq<nat>, limit: nat, bits: Word): (r: Decoded)
  {
    DecodeFrom(sizes, limit, bits, 1)
  }

  lemma {:induction false} SymbolAtRank(sizes: seq<nat>, sym: nat)
    requires Used(sizes, sym)
    ensures CountOf(sizes[..sym], sizes[sym]) < CountOf(sizes, sizes[sym])
    ensures SymbolAt(sizes, sizes[sym], CountOf(sizes[..sym], sizes[sym])) == sym
  {
    CountOfPrefix(sizes, sym, sizes[sym]);
    var s := SymbolAt(sizes, sizes[sym], CountOf(sizes[..sym], sizes[sym]));
    if s < sym { RankDistinct(sizes, s, sym); } else if sym < s { RankDistinct(sizes, sym, s); }
  }

  lemma {:induction false} DecodeReachesWord(sizes: seq<nat>, limit: nat, sym: nat, bits: Word, len: nat)
    requires Fits(sizes, limit) && Used(sizes, sym) && CodeWord(sizes, sym) <= bits
    requires 1 <= len <= sizes[sym]
    ensures DecodeFrom(sizes, limit, bits, len) == Symbol(sym, sizes[sym])
    decreases limit + 1 - len
  {
    var word := CodeWord(sizes, sym);
    CodeValue(sizes, limit, sym);
    CodeInRange(sizes, sym);
    hide Value, CodeWord, First, Code;
    assert bits[..|word|] == word;
    if len == sizes[sym] {
      SymbolOfCode(sizes, sym);
    } else {
      assert bits[..len] == word[..len];
      BeyondShorter(sizes, word, len);
      DecodeReachesWord(sizes, limit, sym, bits, len + 1);
    }
  }

  lemma {:induction false} SymbolOfCode(sizes: seq<nat>, sym: nat)
    requires Used(sizes, sym)
    ensures First(sizes, sizes[sym]) <= Code(sizes, sym) < Past(sizes, sizes[sym])
    ensures SymbolAt(sizes, sizes[sym], Code(sizes, sym) - First(sizes, sizes[sym])) == sym
  {
    SymbolAtRank(sizes, sym);
  }

  /** Decoding inverts the assignment of code words. */
  lemma {:induction false} DecodeInvertsCode(sizes: seq<nat>, limit: nat, sym: nat, rest: Word)
    requires Fits(sizes, limit) && Used(sizes, sym)
    ensures Decode(sizes, limit, CodeWord(sizes, sym) + rest) == Symbol(sym, sizes[sym])
  {
    DecodeReachesWord(sizes, limit, sym, CodeWord(sizes, sym) + rest, 1);
  }

  /** What is decoded is a symbol whose code word the bits start with. */
  lemma {:induction false} DecodeIsSound(sizes: seq<nat>, limit: nat, bits: Word, len: nat)
    requires Fits(sizes, limit) && len >= 1
    ensures var r := DecodeFrom(sizes, limit, bits, len);
      r.Symbol? ==> Used(sizes, r.sym) && r.len == sizes[r.sym] && CodeWord(sizes, r.sym) <= bits
    decreases limit + 1 - len
  {
    if len <= limit && len <= |bits| {
      var v := Value(bits[..len]);
      if First(sizes, len) <= v < Past(sizes, len) {
        var sym := SymbolAt(sizes, len, v - First(sizes, len));
        CodeValue(sizes, limit, sym);
        EqualValues(CodeWord(sizes, sym), bits[..len]);
      } else {
        DecodeIsSound(sizes, limit, bits, len + 1);
      }
    }
  }

  lemma {:induction false} DecodeFinds(sizes: seq<nat>, limit: nat, bits: Word, len: nat)
    requires Complete(sizes, limit) && |bits| >= limit && 1 <= len <= limit + 1
    requires len <= limit ==> First(sizes, len) <= Value(bits[..len])
    requires len == limit + 1 ==> Past(sizes, limit) <= Value(bits[..limit])
    ensures DecodeFrom(sizes, limit, bits, len).Symbol?
    decreases limit + 1 - len
  {
    ValueBound(bits[..limit]);
    if len <= limit && Past(sizes, len) <= Value(bits[..len]) {
      if len < limit {
        assert bits[..len + 1] == bits[..len] + [bits[len]];
        ValueSnoc(bits[..len], bits[len]);
      }
      DecodeFinds(sizes, limit, bits, len + 1);
    }
  }

  /** With a complete code every long enough bit string starts with a code word. */
  lemma {:induction false} CompleteDecodes(sizes: seq<nat>, limit: nat, bits: Word)
    requires Complete(sizes, limit) && |bits| >= limit
    ensures var r := Decode(sizes, limit, bits);
      r.Symbol? && Used(sizes, r.sym) && r.len == sizes[r.sym] && CodeWord(sizes, r.sym) <= bits
  {
    DecodeFinds(sizes, limit, bits, 1);
    DecodeIsSound(sizes, limit, bits, 1);
  }
}
