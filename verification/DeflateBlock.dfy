/** A block's tokens as bits (section 3.2.3 of RFC 1951): written by the compressor, read back by the inflater. */
module DeflateBlock {
  import opened Sequences
  import opened Wrappers
  import opened Arithmetic
  import opened PrefixCodes
  import opened CanonicalCodes
  import opened BitBuffers
  import opened HuffmanTables
  import opened InflateTable
  import opened LzTokens
  import opened LzCodeBuffer
  import opened CodeLengths
  import opened CodeLengthRuns
  import opened DynamicHeader
  import opened TableCost

  const END_OF_BLOCK: nat := 256

  /** The inflater's tables of base values and extra bits. */
  const LENGTH_BASE: seq<nat> :=
    [3, 4, 5, 6, 7, 8, 9, 10, 11, 13, 15, 17, 19, 23, 27, 31, 35, 43, 51, 59, 67, 83, 99, 115, 131, 163, 195, 227, 258]
  const LENGTH_EXTRA: seq<nat> :=
    [0, 0, 0, 0, 0, 0, 0, 0, 1, 1, 1, 1, 2, 2, 2, 2, 3, 3, 3, 3, 4, 4, 4, 4, 5, 5, 5, 5, 0]
  const DIST_BASE: seq<nat> :=
    [1, 2, 3, 4, 5, 7, 9, 13, 17, 25, 33, 49, 65, 97, 129, 193, 257, 385, 513, 769, 1025, 1537, 2049, 3073, 4097, 6145,
     8193, 12289, 16385, 24577]
  const DIST_EXTRA: seq<nat> :=
    [0, 0, 0, 0, 1, 1, 2, 2, 3, 3, 4, 4, 5, 5, 6, 6, 7, 7, 8, 8, 9, 9, 10, 10, 11, 11, 12, 12, 13, 13]

  lemma Powers()
    ensures Pow2(0) == 1 && Pow2(1) == 2 && Pow2(2) == 4 && Pow2(3) == 8 && Pow2(4) == 16 && Pow2(5) == 32 && Pow2(6) == 64
    ensures Pow2(7) == 128 && Pow2(8) == 256 && Pow2(9) == 512 && Pow2(10) == 1024 && Pow2(11) == 2048
    ensures Pow2(12) == 4096 && Pow2(13) == 8192
  {
    assert Pow2(4) == 16;
    assert Pow2(8) == 256;
    assert Pow2(12) == 4096;
  }

  /** The compressor's symbol and extra bits for a length say the same as the inflater's tables. */
  lemma LengthCoding(l: nat)
    requires l < 256
    ensures var i := LengthSymbol(l) - 257;
      i < 29 && LENGTH_EXTRA[i] == LengthExtra(l) && LENGTH_BASE[i] + l % Pow2(LengthExtra(l)) == l + MIN_MATCH
  {
    hide Pow2;
    Powers();
    if l == 255 || l < 8 {
      ShortLength(l);
    } else {
      var e := LengthExtra(l);
      LengthBucket(l);
      LengthBase(e, l / Pow2(e));
    }
  }

  lemma ShortLength(l: nat)
    requires l < 8 || l == 255
    ensures var i := LengthSymbol(l) - 257; LENGTH_EXTRA[i] == 0 == LengthExtra(l) && LENGTH_BASE[i] == l + MIN_MATCH
  {
  }

  /** Within its bucket a length is 4 to 7 units and a remainder. */
  lemma LengthBucket(l: nat)
    requires 8 <= l < 255
    ensures var e, unit := LengthExtra(l), Pow2(LengthExtra(l));
      && 1 <= e <= 5 && 4 <= l / unit <= 7 && LengthSymbol(l) == 257 + 4 * e + l / unit
      && l == unit * (l / unit) + l % unit
  {
    hide Pow2;
    Powers();
    if l < 16 { Quarter(l, 2); } else if l < 32 { Quarter(l, 4); } else if l < 64 { Quarter(l, 8); }
    else if l < 128 { Quarter(l, 16); } else { Quarter(l, 32); }
  }

  lemma Quarter(l: nat, unit: nat)
    requires unit > 0 && 4 * unit <= l < 8 * unit
    ensures 4 <= l / unit < 8 && l == unit * (l / unit) + l % unit
  {
    var q, r := DivParts(l, unit);
    if q < 4 { ProductMonotone(unit, q, 3); }
    if q >= 8 { ProductMonotone(unit, 8, q); }
  }

  lemma LengthBase(e: nat, q: nat)
    requires 1 <= e <= 5 && 4 <= q <= 7
    ensures LENGTH_EXTRA[4 * e + q] == e && LENGTH_BASE[4 * e + q] == Pow2(e) * q + MIN_MATCH
  {
    hide *;
    if q == 4 { FourthLength(e); } else if q == 5 { FifthLength(e); } else if q == 6 { SixthLength(e); } else { SeventhLength(e); }
  }

  lemma FourthLength(e: nat)
    requires 1 <= e <= 5
    ensures LENGTH_EXTRA[4 * e + 4] == e && LENGTH_BASE[4 * e + 4] == Pow2(e) * 4 + MIN_MATCH
  {
    hide Pow2;
    Powers();
  }

  lemma FifthLength(e: nat)
    requires 1 <= e <= 5
    ensures LENGTH_EXTRA[4 * e + 5] == e && LENGTH_BASE[4 * e + 5] == Pow2(e) * 5 + MIN_MATCH
  {
    hide Pow2;
    Powers();
  }

  lemma SixthLength(e: nat)
    requires 1 <= e <= 5
    ensures LENGTH_EXTRA[4 * e + 6] == e && LENGTH_BASE[4 * e + 6] == Pow2(e) * 6 + MIN_MATCH
  {
    hide Pow2;
    Powers();
  }

  lemma SeventhLength(e: nat)
    requires 1 <= e <= 5
    ensures LENGTH_EXTRA[4 * e + 7] == e && LENGTH_BASE[4 * e + 7] == Pow2(e) * 7 + MIN_MATCH
  {
    hide Pow2;
    Powers();
  }

  lemma DistCoding(d: nat)
    requires d < 32768
    ensures var i := DistSymbol(d);
      i < 30 && DIST_EXTRA[i] == DistExtra(d) && DIST_BASE[i] + d % Pow2(DistExtra(d)) == d + 1
  {
    hide Pow2;
    Powers();
    if d < 4 {
      ShortDist(d);
    } else {
      var e := DistExtra(d);
      DistBucket(d);
      DistBase(e, d / Pow2(e));
    }
  }

  lemma ShortDist(d: nat)
    requires d < 4
    ensures DistSymbol(d) == d && DIST_EXTRA[d] == 0 == DistExtra(d) && DIST_BASE[d] == d + 1
  {
  }

  /** Within its bucket a distance is 2 or 3 units and a remainder. */
  lemma DistBucket(d: nat)
    requires 4 <= d < 32768
    ensures var e, unit := DistExtra(d), Pow2(DistExtra(d));
      && 1 <= e <= 13 && 2 <= d / unit <= 3 && DistSymbol(d) == 2 * e + d / unit
      && d == unit * (d / unit) + d % unit
  {
    hide Pow2;
    Powers();
    Half(d, Pow2(DistExtra(d)));
  }

  lemma Half(d: nat, unit: nat)
    requires unit > 0 && 2 * unit <= d < 4 * unit
    ensures 2 <= d / unit < 4 && d == unit * (d / unit) + d % unit
  {
    var q, r := DivParts(d, unit);
    if q < 2 { ProductMonotone(unit, q, 1); }
    if q >= 4 { ProductMonotone(unit, 4, q); }
  }

  lemma DistBase(e: nat, q: nat)
    requires 1 <= e <= 13 && 2 <= q <= 3
    ensures DIST_EXTRA[2 * e + q] == e && DIST_BASE[2 * e + q] == Pow2(e) * q + 1
  {
    hide *;
    if q == 2 { SecondDist(e); } else { ThirdDist(e); }
  }

  lemma SecondDist(e: nat)
    requires 1 <= e <= 13
    ensures DIST_EXTRA[2 * e + 2] == e && DIST_BASE[2 * e + 2] == Pow2(e) * 2 + 1
  {
    hide Pow2;
    Powers();
    if e < 7 { assert DIST_EXTRA[2 * e + 2] == e; } else { assert DIST_EXTRA[2 * e + 2] == e; }
  }

  lemma ThirdDist(e: nat)
    requires 1 <= e <= 13
    ensures DIST_EXTRA[2 * e + 3] == e && DIST_BASE[2 * e + 3] == Pow2(e) * 3 + 1
  {
    hide Pow2;
    Powers();
  }

  // ----- tokens as bits

  /** Every symbol a token needs has a code. */
  ghost predicate Coverable(t: Token, main: seq<nat>, dist: seq<nat>) {
    && Codable(t) && Used(main, MainSymbol(t))
    && (t.Match? ==> Used(dist, DistSymbol(t.dist - 1)))
  }

  ghost predicate AllCoverable(tokens: seq<Token>, main: seq<nat>, dist: seq<nat>) {
    forall i :: 0 <= i < |tokens| ==> Coverable(tokens[i], main, dist)
  }

  function LengthExtraBits(len: nat): (bits: Word)
    requires MIN_MATCH <= len
  {
    var l := len - MIN_MATCH;
    LowBits(l % Pow2(LengthExtra(l)), LengthExtra(l))
  }

  function DistExtraBits(dist: nat): (bits: Word)
    requires dist >= 1
  {
    LowBits((dist - 1) % Pow2(DistExtra(dist - 1)), DistExtra(dist - 1))
  }

  ghost function TokenBits(t: Token, main: seq<nat>, dist: seq<nat>): (bits: Word)
    requires Coverable(t, main, dist)
  {
    match t
    case Literal(b) => CodeWord(main, b)
    case Match(len, d) =>
      CodeWord(main, LengthSymbol(len - MIN_MATCH)) + (LengthExtraBits(len)
        + (CodeWord(dist, DistSymbol(d - 1)) + DistExtraBits(d)))
  }

  ghost function TokensBits(tokens: seq<Token>, main: seq<nat>, dist: seq<nat>): (bits: Word)
    requires AllCoverable(tokens, main, dist)
  {
    if tokens == [] then [] else TokenBits(tokens[0], main, dist) + TokensBits(tokens[1..], main, dist)
  }

  /** The tokens and the end of the block. */
  ghost function BlockBits(tokens: seq<Token>, main: seq<nat>, dist: seq<nat>): (bits: Word)
    requires AllCoverable(tokens, main, dist) && Used(main, END_OF_BLOCK)
  {
    TokensBits(tokens, main, dist) + CodeWord(main, END_OF_BLOCK)
  }

  lemma {:induction false} TokensBitsSnoc(tokens: seq<Token>, t: Token, main: seq<nat>, dist: seq<nat>)
    requires AllCoverable(tokens, main, dist) && Coverable(t, main, dist)
    ensures AllCoverable(tokens + [t], main, dist)
    ensures TokensBits(tokens + [t], main, dist) == TokensBits(tokens, main, dist) + TokenBits(t, main, dist)
  {
    hide TokenBits, Coverable;
    if tokens == [] {
      assert [t][1..] == [];
    } else {
      TokensBitsSnoc(tokens[1..], t, main, dist);
      assert (tokens + [t])[1..] == tokens[1..] + [t];
    }
  }

  // ----- reading tokens, bit by bit

  /** One code, and the bits behind it. */
  function ReadSymbol(bits: Word, sizes: seq<nat>): Read<nat> {
    match Decode(sizes, MAX_BITS, bits)
    case NoSymbol => Fail
    case Symbol(sym, len) => if 1 <= len <= |bits| then Read(sym, bits[len..]) else Fail
  }

  /** The rest of a match, after its length symbol. */
  function ReadMatch(bits: Word, sym: nat, dist: seq<nat>): Read<Token>
    requires sym >= 257
  {
    if sym - 257 >= |LENGTH_BASE| then Fail
    else
      match GetBits(bits, LENGTH_EXTRA[sym - 257])
      case Fail => Fail
      case Read(lengthBits, bits1) =>
        match ReadSymbol(bits1, dist)
        case Fail => Fail
        case Read(distSym, bits2) =>
          if distSym >= |DIST_BASE| then Fail
          else
            match GetBits(bits2, DIST_EXTRA[distSym])
            case Fail => Fail
            case Read(distBits, bits3) =>
              Read(Match(LENGTH_BASE[sym - 257] + lengthBits, DIST_BASE[distSym] + distBits), bits3)
  }

  /** Reads tokens up to the end of the block. */
  function ReadTokens(bits: Word, main: seq<nat>, dist: seq<nat>): Read<seq<Token>>
    decreases |bits|
  {
    match ReadSymbol(bits, main)
    case Fail => Fail
    case Read(sym, rest) =>
      if sym == END_OF_BLOCK then Read([], rest)
      else
        var t := if sym < END_OF_BLOCK then Read(Literal(sym), rest) else ReadMatch(rest, sym, dist);
        match t
        case Fail => Fail
        case Read(token, bits1) =>
          if |bits1| >= |bits| then Fail
          else
            match ReadTokens(bits1, main, dist)
            case Fail => Fail
            case Read(tokens, bits2) => Read([token] + tokens, bits2)
  }

  lemma ReadSymbolOf(sizes: seq<nat>, sym: nat, rest: Word)
    requires Fits(sizes, MAX_BITS) && Used(sizes, sym)
    ensures ReadSymbol(CodeWord(sizes, sym) + rest, sizes) == Read(sym, rest)
  {
    hide Decode, Fits;
    DecodeInvertsCode(sizes, MAX_BITS, sym, rest);
    FrontAndRest(CodeWord(sizes, sym), rest);
  }

  lemma ReadExtraOf(v: nat, n: nat, rest: Word)
    ensures GetBits(LowBits(v % Pow2(n), n) + rest, n) == Read(v % Pow2(n), rest)
  {
    GetBitsOf(v % Pow2(n), n, rest);
  }

  lemma ReadMatchOf(len: nat, d: nat, main: seq<nat>, dist: seq<nat>, rest: Word)
    requires Fits(dist, MAX_BITS) && Coverable(Match(len, d), main, dist)
    ensures ReadMatch(LengthExtraBits(len) + (CodeWord(dist, DistSymbol(d - 1)) + (DistExtraBits(d) + rest)),
                      LengthSymbol(len - MIN_MATCH), dist) == Read(Match(len, d), rest)
  {
    hide GetBits, LowBits, ReadSymbol, ReadMatch, CodeWord, Fits, Pow2, DistSymbol, LengthSymbol, DistExtra, LengthExtra,
      LENGTH_BASE, LENGTH_EXTRA, DIST_BASE, DIST_EXTRA;
    TableSizes();
    var behind := DistExtraBits(d) + rest;
    LengthCoding(len - MIN_MATCH);
    DistCoding(d - 1);
    ReadExtraOf(len - MIN_MATCH, LengthExtra(len - MIN_MATCH), CodeWord(dist, DistSymbol(d - 1)) + behind);
    ReadSymbolOf(dist, DistSymbol(d - 1), behind);
    ReadExtraOf(d - 1, DistExtra(d - 1), rest);
    ReadMatchParts(LengthExtraBits(len) + (CodeWord(dist, DistSymbol(d - 1)) + behind), LengthSymbol(len - MIN_MATCH), dist,
                   CodeWord(dist, DistSymbol(d - 1)) + behind, DistSymbol(d - 1), behind, rest,
                   (len - MIN_MATCH) % Pow2(LengthExtra(len - MIN_MATCH)), (d - 1) % Pow2(DistExtra(d - 1)));
  }

  lemma TableSizes()
    ensures |LENGTH_BASE| == |LENGTH_EXTRA| == 29 && |DIST_BASE| == |DIST_EXTRA| == 30
  {
  }

  lemma ReadMatchParts(bits: Word, sym: nat, dist: seq<nat>, bits1: Word, distSym: nat, bits2: Word, bits3: Word, l: nat, d: nat)
    requires 257 <= sym < 257 + |LENGTH_BASE| && distSym < |DIST_BASE|
    requires GetBits(bits, LENGTH_EXTRA[sym - 257]) == Read(l, bits1) && ReadSymbol(bits1, dist) == Read(distSym, bits2)
    requires GetBits(bits2, DIST_EXTRA[distSym]) == Read(d, bits3)
    ensures ReadMatch(bits, sym, dist) == Read(Match(LENGTH_BASE[sym - 257] + l, DIST_BASE[distSym] + d), bits3)
  {
    hide GetBits, ReadSymbol, LENGTH_BASE, LENGTH_EXTRA, DIST_BASE, DIST_EXTRA;
  }

  lemma WordNotEmpty(sizes: seq<nat>, sym: nat)
    requires Used(sizes, sym)
    ensures |CodeWord(sizes, sym)| > 0
  {
  }

  /** What the compressor writes for the tokens of a block, the inflater reads as the same tokens. */
  lemma {:induction false} TokensRoundTrip(tokens: seq<Token>, main: seq<nat>, dist: seq<nat>, rest: Word)
    requires Fits(main, MAX_BITS) && Fits(dist, MAX_BITS) && Used(main, END_OF_BLOCK) && AllCoverable(tokens, main, dist)
    ensures ReadTokens(BlockBits(tokens, main, dist) + rest, main, dist) == Read(tokens, rest)
    decreases |tokens|
  {
    hide ReadSymbol, ReadMatch, CodeWord, Fits, LengthExtraBits, DistExtraBits, LengthSymbol, DistSymbol;
    var end := CodeWord(main, END_OF_BLOCK);
    if tokens == [] {
      assert [] + end + rest == end + rest;
      ReadSymbolOf(main, END_OF_BLOCK, rest);
    } else {
      var t, more := tokens[0], BlockBits(tokens[1..], main, dist) + rest;
      assert Coverable(t, main, dist);
      TokensRoundTrip(tokens[1..], main, dist, rest);
      var bits := BlockBits(tokens, main, dist) + rest;
      JoinFourWords(TokenBits(t, main, dist), TokensBits(tokens[1..], main, dist), end, rest);
      ReadTokenOf(t, main, dist, more);
      assert tokens == [t] + tokens[1..];
    }
  }

  lemma JoinFourWords(a: Word, b: Word, c: Word, d: Word)
    ensures a + b + c + d == a + (b + c + d)
  {
  }

  /** The first token of some bits. */
  lemma ReadTokenOf(t: Token, main: seq<nat>, dist: seq<nat>, more: Word)
    requires Fits(main, MAX_BITS) && Fits(dist, MAX_BITS) && Coverable(t, main, dist)
    ensures var bits := TokenBits(t, main, dist) + more;
      && |more| < |bits| && ReadSymbol(bits, main).Read? && ReadSymbol(bits, main).value == MainSymbol(t)
      && (t.Literal? ==> ReadSymbol(bits, main).rest == more)
      && (t.Match? ==> ReadMatch(ReadSymbol(bits, main).rest, MainSymbol(t), dist) == Read(t, more))
  {
    hide ReadSymbol, ReadMatch, CodeWord, Fits, LengthExtraBits, DistExtraBits, LengthSymbol, DistSymbol;
    WordNotEmpty(main, MainSymbol(t));
    match t
    case Literal(b) => ReadSymbolOf(main, b, more);
    case Match(len, d) =>
      var word, a, b, c := CodeWord(main, LengthSymbol(len - MIN_MATCH)), LengthExtraBits(len),
        CodeWord(dist, DistSymbol(d - 1)), DistExtraBits(d);
      RegroupMatch(word, a, b, c, more);
      ReadSymbolOf(main, LengthSymbol(len - MIN_MATCH), a + (b + (c + more)));
      ReadMatchOf(len, d, main, dist, more);
  }

  lemma RegroupMatch(word: Word, a: Word, b: Word, c: Word, more: Word)
    ensures word + (a + (b + c)) + more == word + (a + (b + (c + more)))
  {
  }

  // ----- writing a block

  ghost predicate Tables(mainSizes: seq<nat>, mainCodes: seq<nat>, distSizes: seq<nat>, distCodes: seq<nat>) {
    && |mainSizes| == |mainCodes| == 288 && |distSizes| == |distCodes| == 32
    && Fits(mainSizes, MAX_BITS) && Fits(distSizes, MAX_BITS)
    && Coded(mainCodes, mainSizes, 288) && Coded(distCodes, distSizes, 32)
  }

  lemma CodeFits(sizes: seq<nat>, codes: seq<nat>, sym: nat)
    requires Fits(sizes, MAX_BITS) && Coded(codes, sizes, |sizes|) && Used(sizes, sym)
    ensures codes[sym] < Pow2(sizes[sym]) && sizes[sym] <= 16 && LowBits(codes[sym], sizes[sym]) == CodeWord(sizes, sym)
  {
    CodeBits(codes, sizes, sym);
  }

  lemma RemainderFits(v: nat, n: nat)
    ensures v % Pow2(n) < Pow2(n)
  {
  }

  method PutCode(w: BitWriter, sizes: array<nat>, codes: array<nat>, sym: nat)
    requires w.Valid() && Fits(sizes[..], MAX_BITS) && Coded(codes[..], sizes[..], sizes.Length) && Used(sizes[..], sym)
    modifies w
    ensures w.Valid() && w.Bits() == old(w.Bits()) + CodeWord(sizes[..], sym)
  {
    hide LowBits, CodeWord, Fits, BitsOfBytes, Pow2;
    CodeFits(sizes[..], codes[..], sym);
    w.PutBits(codes[sym], sizes[sym]);
  }

  /** The low bits that a mask leaves. */
  method PutExtra(w: BitWriter, v: nat, n: nat)
    requires w.Valid() && n <= 13
    modifies w
    ensures w.Valid() && w.Bits() == old(w.Bits()) + LowBits(v % Pow2(n), n)
  {
    hide LowBits, BitsOfBytes, Pow2;
    RemainderFits(v, n);
    var unit := Power(n);
    w.PutBits(v % unit, n);
  }

  method WriteToken(w: BitWriter, t: Token, mainSizes: array<nat>, mainCodes: array<nat>, distSizes: array<nat>, distCodes: array<nat>)
    requires w.Valid() && Tables(mainSizes[..], mainCodes[..], distSizes[..], distCodes[..])
    requires Coverable(t, mainSizes[..], distSizes[..])
    modifies w
    ensures w.Valid() && w.Bits() == old(w.Bits()) + TokenBits(t, mainSizes[..], distSizes[..])
  {
    hide LowBits, CodeWord, Fits, Coded, BitsOfBytes, Pow2, LengthSymbol, DistSymbol, LengthExtra, DistExtra;
    ghost var before := w.Bits();
    match t
    case Literal(b) => PutCode(w, mainSizes, mainCodes, b);
    case Match(len, dist) =>
      var l, d := len - MIN_MATCH, dist - 1;
      PutCode(w, mainSizes, mainCodes, LengthSymbol(l));
      PutExtra(w, l, LengthExtra(l));
      PutCode(w, distSizes, distCodes, DistSymbol(d));
      PutExtra(w, d, DistExtra(d));
      RegroupToken(before, CodeWord(mainSizes[..], LengthSymbol(l)), LengthExtraBits(len),
                   CodeWord(distSizes[..], DistSymbol(d)), DistExtraBits(dist));
  }

  lemma RegroupToken(before: Word, a: Word, b: Word, c: Word, d: Word)
    ensures before + a + b + c + d == before + (a + (b + (c + d)))
  {
  }

  /** Sends the tokens of a block and its end. */
  method WriteTokens(w: BitWriter, tokens: seq<Token>, mainSizes: array<nat>, mainCodes: array<nat>,
                     distSizes: array<nat>, distCodes: array<nat>)
    requires w.Valid() && Tables(mainSizes[..], mainCodes[..], distSizes[..], distCodes[..])
    requires AllCoverable(tokens, mainSizes[..], distSizes[..]) && Used(mainSizes[..], END_OF_BLOCK)
    modifies w
    ensures w.Valid() && w.Bits() == old(w.Bits()) + BlockBits(tokens, mainSizes[..], distSizes[..])
  {
    hide LowBits, CodeWord, Fits, Coded, BitsOfBytes, TokenBits, TokensBits, Coverable;
    ghost var before, m, d := w.Bits(), mainSizes[..], distSizes[..];
    NoTokens(tokens, m, d, before);
    for i := 0 to |tokens|
      invariant w.Valid() && AllCoverable(tokens[..i], m, d) && w.Bits() == before + TokensBits(tokens[..i], m, d)
    {
      WriteToken(w, tokens[i], mainSizes, mainCodes, distSizes, distCodes);
      assert tokens[..i + 1] == tokens[..i] + [tokens[i]];
      TokensBitsSnoc(tokens[..i], tokens[i], m, d);
      JoinThree(before, TokensBits(tokens[..i], m, d), TokenBits(tokens[i], m, d));
    }
    assert tokens[..|tokens|] == tokens;
    PutCode(w, mainSizes, mainCodes, END_OF_BLOCK);
    JoinThree(before, TokensBits(tokens, m, d), CodeWord(m, END_OF_BLOCK));
  }

  lemma NoTokens(tokens: seq<Token>, main: seq<nat>, dist: seq<nat>, before: Word)
    ensures AllCoverable(tokens[..0], main, dist) && before + TokensBits(tokens[..0], main, dist) == before
  {
    assert tokens[..0] == [];
  }

  // ----- a dynamic block, from tokens to bits and back

  /** Reads a dynamic block's header, builds both tables and reads the tokens. */
  ghost function InflateDynamic(bits: Word): Read<seq<Token>> {
    match ReadHeader(bits)
    case None => Fail
    case Some(h) => if Accepted(h.main) && Accepted(h.dist) then ReadTokens(h.rest, h.main, h.dist) else Fail
  }

  /** Tables built from a block's own counts have codes for all its tokens. */
  lemma CountedIsCoverable(tokens: seq<Token>, mainCount: seq<nat>, distCount: seq<nat>, mainSizes: seq<nat>, distSizes: seq<nat>)
    requires TokensCounted(mainCount, distCount, tokens)
    requires GoodSizes(mainCount[256 := 1], mainSizes, MAX_BITS) && GoodSizes(distCount, distSizes, MAX_BITS)
    ensures AllCoverable(tokens, mainSizes, distSizes) && Used(mainSizes, END_OF_BLOCK)
    ensures Fits(mainSizes, MAX_BITS) && Fits(distSizes, MAX_BITS)
  {
    hide LengthSymbol, DistSymbol, Fits, Complete, Sum;
    forall i | 0 <= i < |tokens| ensures Coverable(tokens[i], mainSizes, distSizes) {
      OccurringIsCounted(tokens, i);
      assert Codable(tokens[i]);
    }
  }

  lemma TrimmedBits(tokens: seq<Token>, main: seq<nat>, dist: seq<nat>, sentMain: seq<nat>, sentDist: seq<nat>)
    requires Sent(main, sentMain) && Sent(dist, sentDist)
    requires AllCoverable(tokens, main, dist)
    ensures AllCoverable(tokens, sentMain, sentDist)
    ensures TokensBits(tokens, main, dist) == TokensBits(tokens, sentMain, sentDist)
  {
    hide CodeWord, Accepted, LengthSymbol, DistSymbol;
    forall i | 0 <= i < |tokens| ensures Coverable(tokens[i], sentMain, sentDist) {
      assert Coverable(tokens[i], main, dist);
      TrimmedToken(tokens[i], main, dist, sentMain, sentDist);
    }
    if tokens != [] {
      TrimmedToken(tokens[0], main, dist, sentMain, sentDist);
      TrimmedBits(tokens[1..], main, dist, sentMain, sentDist);
    }
  }

  lemma TrimmedToken(t: Token, main: seq<nat>, dist: seq<nat>, sentMain: seq<nat>, sentDist: seq<nat>)
    requires Sent(main, sentMain) && Sent(dist, sentDist) && Coverable(t, main, dist)
    ensures Coverable(t, sentMain, sentDist) && TokenBits(t, main, dist) == TokenBits(t, sentMain, sentDist)
  {
    hide CodeWord, Accepted, LengthSymbol, DistSymbol;
    TrimKeepsCodes(main, |sentMain|, MainSymbol(t));
    if t.Match? { TrimKeepsCodes(dist, |sentDist|, DistSymbol(t.dist - 1)); }
  }

  /** The inflater recovers the tokens of a dynamic block, although it sees only trimmed tables. */
  lemma DynamicRoundTrip(header: Word, tokens: seq<Token>, main: seq<nat>, dist: seq<nat>,
                         sentMain: seq<nat>, sentDist: seq<nat>, rest: Word)
    requires HeaderSays(header, sentMain, sentDist) && Sent(main, sentMain) && Sent(dist, sentDist)
    requires AllCoverable(tokens, main, dist) && Used(main, END_OF_BLOCK)
    ensures InflateDynamic(header + BlockBits(tokens, main, dist) + rest) == Read(tokens, rest)
  {
    hide CodeWord, ReadHeader, ReadTokens, TokensBits, Coverable;
    TrimmedBits(tokens, main, dist, sentMain, sentDist);
    TrimKeepsCodes(main, |sentMain|, END_OF_BLOCK);
    TokensRoundTrip(tokens, sentMain, sentDist, rest);
    JoinThree(header, BlockBits(tokens, main, dist), rest);
    assert ReadHeader(header + (BlockBits(tokens, main, dist) + rest))
      == Some(Header(sentMain, sentDist, BlockBits(tokens, main, dist) + rest));
  }

  /** The bits of a block, behind its type, are read back as its tokens, whatever follows. */
  ghost predicate DynamicSays(bits: Word, tokens: seq<Token>) {
    forall rest: Word :: InflateDynamic(bits + rest) == Read(tokens, rest)
  }

  lemma DynamicIsRead(header: Word, tokens: seq<Token>, main: seq<nat>, dist: seq<nat>, sentMain: seq<nat>, sentDist: seq<nat>)
    requires HeaderSays(header, sentMain, sentDist) && Sent(main, sentMain) && Sent(dist, sentDist)
    requires AllCoverable(tokens, main, dist) && Used(main, END_OF_BLOCK)
    ensures DynamicSays(header + BlockBits(tokens, main, dist), tokens)
  {
    hide HeaderSays, Sent, AllCoverable, Used, BlockBits, InflateDynamic;
    forall rest: Word ensures InflateDynamic(header + BlockBits(tokens, main, dist) + rest) == Read(tokens, rest) {
      DynamicRoundTrip(header, tokens, main, dist, sentMain, sentDist, rest);
    }
  }

  /** Writes the recorded tokens as a dynamic block. */
  method CompressDynamicBlock(codes: CodeBuffer, tokens: seq<Token>, mainSizes: array<nat>, mainCodes: array<nat>,
                              distSizes: array<nat>, distCodes: array<nat>, w: BitWriter) returns (ghost bits: Word)
    requires SixArrays(codes.mainCount, mainSizes, mainCodes, codes.distCount, distSizes, distCodes)
    requires TokensCounted(codes.mainCount[..], codes.distCount[..], tokens) && |tokens| + 1 < 65536 && w.Valid()
    modifies codes.mainCount, mainSizes, mainCodes, distSizes, distCodes, w
    ensures w.Valid() && w.Bits() == old(w.Bits()) + LowBits(2, 2) + bits && DynamicSays(bits, tokens)
    ensures WellBuilt(old(codes.mainCount[..])[256 := 1], mainSizes[..]) && WellBuilt(old(codes.distCount[..]), distSizes[..])
    ensures AllCoverable(tokens, mainSizes[..], distSizes[..]) && Used(mainSizes[..], END_OF_BLOCK)
    ensures |bits| <= HEADER_BITS + |BlockBits(tokens, mainSizes[..], distSizes[..])| && FewDistances(bits)
  {
    hide FewDistances, WellBuilt, GoodSizes, Coded, Sent, HeaderSays, LowBits, BitsOfBytes, BlockBits, DynamicSays, AllCoverable, Fits, Sum, AllCodable;
    ghost var before, mc, dc := w.Bits(), codes.mainCount[..], codes.distCount[..];
    CountsReady(mc, dc, tokens);
    var header, main, dist := StartDynamicBlock(codes.mainCount, mainSizes, mainCodes, codes.distCount, distSizes, distCodes, w);
    CountedIsCoverable(tokens, mc, dc, mainSizes[..], distSizes[..]);
    WriteTokens(w, tokens, mainSizes, mainCodes, distSizes, distCodes);
    DynamicIsRead(header, tokens, mainSizes[..], distSizes[..], main, dist);
    bits := header + BlockBits(tokens, mainSizes[..], distSizes[..]);
    FewInFront(header, BlockBits(tokens, mainSizes[..], distSizes[..]));
    JoinThree(before + LowBits(2, 2), header, BlockBits(tokens, mainSizes[..], distSizes[..]));
  }

  lemma FewInFront(header: Word, rest: Word)
    requires FewDistances(header)
    ensures FewDistances(header + rest)
  {
    hide Reversed;
    assert (header + rest)[5..10] == header[5..10];
  }

  lemma CountsReady(mainCount: seq<nat>, distCount: seq<nat>, tokens: seq<Token>)
    requires TokensCounted(mainCount, distCount, tokens) && |tokens| + 1 < 65536
    ensures Sum(mainCount) + 1 < 65536 && mainCount[286] == 0 && mainCount[287] == 0
    ensures Sum(distCount) < 65536 && distCount[30] == 0 && distCount[31] == 0
  {
    LastSymbolsUnused(tokens, 286);
    LastSymbolsUnused(tokens, 287);
    LastSymbolsUnused(tokens, 30);
    LastSymbolsUnused(tokens, 31);
  }

  // ----- a static block

  /** The fixed code lengths (section 3.2.6 of RFC 1951). */
  function FixedMain(): (sizes: seq<nat>)
    ensures |sizes| == 288
  {
    Copies(8, 144) + (Copies(9, 112) + (Copies(7, 24) + Copies(8, 8)))
  }

  function FixedDist(): (sizes: seq<nat>)
    ensures |sizes| == 32
  {
    Copies(5, 32)
  }

  lemma {:induction false} CountCopies(x: nat, n: nat, len: nat)
    ensures CountOf(Copies(x, n), len) == if x == len then n else 0
  {
    if n > 0 {
      CountCopies(x, n - 1, len);
      assert Copies(x, n)[..n - 1] == Copies(x, n - 1);
    }
  }

  lemma FixedCounts(len: nat)
    ensures CountOf(FixedMain(), len) == if len == 8 then 152 else if len == 9 then 112 else if len == 7 then 24 else 0
    ensures CountOf(FixedDist(), len) == if len == 5 then 32 else 0
  {
    hide CountOf, Copies;
    CountCopies(8, 144, len);
    CountCopies(9, 112, len);
    CountCopies(7, 24, len);
    CountCopies(8, 8, len);
    CountCopies(5, 32, len);
    CountAppend(Copies(7, 24), Copies(8, 8), len);
    CountAppend(Copies(9, 112), Copies(7, 24) + Copies(8, 8), len);
    CountAppend(Copies(8, 144), Copies(9, 112) + (Copies(7, 24) + Copies(8, 8)), len);
  }

  lemma {:induction false} FixedMainFirst(len: nat)
    requires len <= 9
    ensures First(FixedMain(), len) == if len <= 7 then 0 else if len == 8 then 48 else 400
  {
    if len > 1 {
      FixedMainFirst(len - 1);
      FixedCounts(len - 1);
    }
  }

  lemma {:induction false} FixedDistFirst(len: nat)
    requires len <= 5
    ensures First(FixedDist(), len) == 0
  {
    if len > 1 {
      FixedDistFirst(len - 1);
      FixedCounts(len - 1);
    }
  }

  /** How many of the first symbols have codes of one length. */
  lemma FixedBefore(sym: nat, len: nat)
    requires sym <= 288
    ensures CountOf(FixedMain()[..sym], len) ==
      (if len == 8 then Least(sym, 144) + (if sym > 280 then sym - 280 else 0)
       else if len == 9 then (if sym > 144 then Least(sym, 256) - 144 else 0)
       else if len == 7 then (if sym > 256 then Least(sym, 280) - 256 else 0) else 0)
  {
    hide CountOf, Copies;
    var a, b, c, d := Least(sym, 144), (if sym > 144 then Least(sym, 256) - 144 else 0) as nat,
      (if sym > 256 then Least(sym, 280) - 256 else 0) as nat, (if sym > 280 then sym - 280 else 0) as nat;
    assert FixedMain()[..sym] == Copies(8, a) + (Copies(9, b) + (Copies(7, c) + Copies(8, d)));
    CountCopies(8, a, len);
    CountCopies(9, b, len);
    CountCopies(7, c, len);
    CountCopies(8, d, len);
    CountAppend(Copies(7, c), Copies(8, d), len);
    CountAppend(Copies(9, b), Copies(7, c) + Copies(8, d), len);
    CountAppend(Copies(8, a), Copies(9, b) + (Copies(7, c) + Copies(8, d)), len);
  }

  /** Section 3.2.6 of RFC 1951, word by word: literals from 00110000 and from 110010000 on, the symbols behind them from
      0000000 and from 11000000 on. */
  lemma FixedWords(sym: nat)
    requires sym < 288
    ensures Used(FixedMain(), sym)
    ensures sym < 144 ==> CodeWord(FixedMain(), sym) == Bits(48 + sym, 8)
    ensures 144 <= sym < 256 ==> CodeWord(FixedMain(), sym) == Bits(400 + (sym - 144), 9)
    ensures 256 <= sym < 280 ==> CodeWord(FixedMain(), sym) == Bits(sym - 256, 7)
    ensures 280 <= sym ==> CodeWord(FixedMain(), sym) == Bits(192 + (sym - 280), 8)
  {
    hide First, CountOf, Bits;
    FixedMainFirst(FixedMain()[sym]);
    FixedBefore(sym, FixedMain()[sym]);
  }

  /** Distance symbols are their own five bits. */
  lemma FixedDistWords(sym: nat)
    requires sym < 32
    ensures Used(FixedDist(), sym) && CodeWord(FixedDist(), sym) == Bits(sym, 5)
  {
    hide First, CountOf, Bits;
    FixedDistFirst(5);
    CountCopies(5, sym, 5);
    assert FixedDist()[..sym] == Copies(5, sym);
  }

  /** Both fixed codes use up the code space. */
  lemma FixedIsComplete()
    ensures Complete(FixedMain(), MAX_BITS) && Complete(FixedDist(), MAX_BITS)
    ensures Fits(FixedMain(), MAX_BITS) && Fits(FixedDist(), MAX_BITS)
  {
    hide First, CountOf, Pow2;
    FixedMainFirst(9);
    FixedDistFirst(5);
    FixedCounts(9);
    FixedCounts(5);
    forall l | 9 < l <= 15 ensures CountOf(FixedMain(), l) == 0 { FixedCounts(l); }
    forall l | 5 < l <= 15 ensures CountOf(FixedDist(), l) == 0 { FixedCounts(l); }
    PastDoubles(FixedMain(), 9, 6);
    PastDoubles(FixedDist(), 5, 10);
    Powers();
    Pow2Add(9, 6);
    Pow2Add(5, 10);
  }

  /** All symbols a token can need have fixed codes. */
  lemma FixedCovers(tokens: seq<Token>)
    requires AllCodable(tokens)
    ensures AllCoverable(tokens, FixedMain(), FixedDist()) && Used(FixedMain(), END_OF_BLOCK)
  {
    hide LengthSymbol, DistSymbol;
    forall i | 0 <= i < |tokens| ensures Coverable(tokens[i], FixedMain(), FixedDist()) {
      assert Codable(tokens[i]);
    }
  }

  method FillSizes(sizes: array<nat>, from: nat, to: nat, size: nat)
    requires from <= to <= sizes.Length
    modifies sizes
    ensures forall k :: 0 <= k < sizes.Length ==> sizes[k] == if from <= k < to then size else old(sizes[k])
  {
    for i := from to to
      invariant forall k :: 0 <= k < sizes.Length ==> sizes[k] == if from <= k < i then size else old(sizes[k])
    {
      sizes[i] := size;
    }
  }

  /** Builds the fixed tables. */
  method StartStaticBlock(mainSizes: array<nat>, mainCodes: array<nat>, distSizes: array<nat>, distCodes: array<nat>, w: BitWriter)
    requires mainSizes.Length == mainCodes.Length == 288 && distSizes.Length == distCodes.Length == 32
    requires mainSizes !in {mainCodes, distSizes, distCodes} && mainCodes !in {distSizes, distCodes} && distSizes != distCodes
    requires w.Valid()
    modifies mainSizes, mainCodes, distSizes, distCodes, w
    ensures mainSizes[..] == FixedMain() && distSizes[..] == FixedDist()
    ensures Tables(mainSizes[..], mainCodes[..], distSizes[..], distCodes[..])
    ensures forall sym :: 0 <= sym < 144 ==> mainSizes[sym] == 8 && mainCodes[sym] == Reversed(Bits(48 + sym, 8))
    ensures forall sym :: 144 <= sym < 256 ==> mainSizes[sym] == 9 && mainCodes[sym] == Reversed(Bits(400 + (sym - 144), 9))
    ensures forall sym :: 256 <= sym < 280 ==> mainSizes[sym] == 7 && mainCodes[sym] == Reversed(Bits(sym - 256, 7))
    ensures forall sym :: 280 <= sym < 288 ==> mainSizes[sym] == 8 && mainCodes[sym] == Reversed(Bits(192 + (sym - 280), 8))
    ensures forall sym :: 0 <= sym < 32 ==> distSizes[sym] == 5 && distCodes[sym] == Reversed(Bits(sym, 5))
    ensures w.Valid() && w.Bits() == old(w.Bits()) + LowBits(1, 2)
  {
    hide Bits, Reversed, First, CountOf, Complete, Fits, Coded, LowBits, BitsOfBytes;
    FixedIsComplete();
    FillSizes(mainSizes, 0, 144, 8);
    FillSizes(mainSizes, 144, 256, 9);
    FillSizes(mainSizes, 256, 280, 7);
    FillSizes(mainSizes, 280, 288, 8);
    FillSizes(distSizes, 0, 32, 5);
    assert mainSizes[..] == FixedMain() && distSizes[..] == FixedDist();
    FixedTable(mainSizes, mainCodes, 288, MAX_BITS);
    assert mainSizes[..288] == mainSizes[..];
    ghost var mc := mainCodes[..];
    FixedTable(distSizes, distCodes, 32, MAX_BITS);
    assert distSizes[..32] == distSizes[..];
    assert mainCodes[..] == mc;
    FixedCodes(mc, distCodes[..]);
    assert Pow2(2) == 4;
    w.PutBits(1, 2);
  }

  lemma FixedCodes(main: seq<nat>, dist: seq<nat>)
    requires |main| == 288 && |dist| == 32 && Coded(main, FixedMain(), 288) && Coded(dist, FixedDist(), 32)
    ensures forall sym :: 0 <= sym < 144 ==> main[sym] == Reversed(Bits(48 + sym, 8))
    ensures forall sym :: 144 <= sym < 256 ==> main[sym] == Reversed(Bits(400 + (sym - 144), 9))
    ensures forall sym :: 256 <= sym < 280 ==> main[sym] == Reversed(Bits(sym - 256, 7))
    ensures forall sym :: 280 <= sym < 288 ==> main[sym] == Reversed(Bits(192 + (sym - 280), 8))
    ensures forall sym :: 0 <= sym < 32 ==> dist[sym] == Reversed(Bits(sym, 5))
  {
    hide Bits, Reversed, CodeWord;
    forall sym | 0 <= sym < 144 ensures main[sym] == Reversed(Bits(48 + sym, 8)) { FixedWords(sym); }
    forall sym | 144 <= sym < 256 ensures main[sym] == Reversed(Bits(400 + (sym - 144), 9)) { FixedWords(sym); }
    forall sym | 256 <= sym < 280 ensures main[sym] == Reversed(Bits(sym - 256, 7)) { FixedWords(sym); }
    forall sym | 280 <= sym < 288 ensures main[sym] == Reversed(Bits(192 + (sym - 280), 8)) { FixedWords(sym); }
    forall sym | 0 <= sym < 32 ensures dist[sym] == Reversed(Bits(sym, 5)) { FixedDistWords(sym); }
  }

  /** Reads the tokens of a static block. */
  ghost predicate StaticSays(bits: Word, tokens: seq<Token>) {
    forall rest: Word :: ReadTokens(bits + rest, FixedMain(), FixedDist()) == Read(tokens, rest)
  }

  lemma StaticIsRead(tokens: seq<Token>)
    requires AllCodable(tokens)
    ensures AllCoverable(tokens, FixedMain(), FixedDist()) && Used(FixedMain(), END_OF_BLOCK)
    ensures StaticSays(BlockBits(tokens, FixedMain(), FixedDist()), tokens)
  {
    hide FixedMain, FixedDist, BlockBits, ReadTokens, AllCoverable, Fits;
    FixedCovers(tokens);
    FixedIsComplete();
    forall rest: Word
      ensures ReadTokens(BlockBits(tokens, FixedMain(), FixedDist()) + rest, FixedMain(), FixedDist()) == Read(tokens, rest)
    {
      TokensRoundTrip(tokens, FixedMain(), FixedDist(), rest);
    }
  }

  /** Writes tokens as a static block. */
  method CompressStaticBlock(tokens: seq<Token>, mainSizes: array<nat>, mainCodes: array<nat>,
                             distSizes: array<nat>, distCodes: array<nat>, w: BitWriter) returns (ghost bits: Word)
    requires mainSizes.Length == mainCodes.Length == 288 && distSizes.Length == distCodes.Length == 32
    requires mainSizes !in {mainCodes, distSizes, distCodes} && mainCodes !in {distSizes, distCodes} && distSizes != distCodes
    requires AllCodable(tokens) && w.Valid()
    modifies mainSizes, mainCodes, distSizes, distCodes, w
    ensures w.Valid() && w.Bits() == old(w.Bits()) + LowBits(1, 2) + bits && StaticSays(bits, tokens)
    ensures AllCoverable(tokens, FixedMain(), FixedDist()) && Used(FixedMain(), END_OF_BLOCK)
    ensures bits == BlockBits(tokens, FixedMain(), FixedDist())
  {
    hide FixedMain, FixedDist, BlockBits, StaticSays, AllCoverable, Tables, LowBits, BitsOfBytes, AllCodable;
    StaticIsRead(tokens);
    StartStaticBlock(mainSizes, mainCodes, distSizes, distCodes, w);
    WriteTokens(w, tokens, mainSizes, mainCodes, distSizes, distCodes);
    bits := BlockBits(tokens, mainSizes[..], distSizes[..]);
  }
}
