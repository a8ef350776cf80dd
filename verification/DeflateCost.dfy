/** How long a block can become, statically or dynamically coded: what the compressor's buffers are sized by. */
module DeflateCost {
  import opened Arithmetic
  import opened PrefixCodes
  import opened HuffmanCost
  import opened CanonicalCodes
  import opened BitBuffers
  import opened LzTokens
  import opened LzCodeBuffer
  import opened CodeLengthRuns
  import opened DeflateBlock
  import opened DynamicHeader
  import opened LimitCost
  import opened TableCost

  /** How long a coded block can become, given the length of its codes. */
  predicate CodedBits(bits: nat, next: nat) {
    500 * bits <= 5128 * next + 4477 + 500 * (HEADER_BITS + 2)
  }

  /** What a token takes in the buffer of LZ codes, in eighths of a byte: its bytes and its flag. */
  function Units(t: Token): nat {
    if t.Literal? then 9 else 25
  }

  function AllUnits(tokens: seq<Token>): nat {
    if tokens == [] then 0 else AllUnits(tokens[..|tokens| - 1]) + Units(tokens[|tokens| - 1])
  }

  lemma {:induction false} BodyUnits(tokens: seq<Token>)
    requires AllCodable(tokens)
    ensures AllUnits(tokens) == |tokens| + 8 * |Body(tokens)|
  {
    if tokens != [] {
      assert Codable(tokens[|tokens| - 1]);
      BodyUnits(tokens[..|tokens| - 1]);
    }
  }

  lemma {:induction false} UnitsAppend(a: seq<Token>, b: seq<Token>)
    ensures AllUnits(a + b) == AllUnits(a) + AllUnits(b)
  {
    if b == [] {
      assert a + b == a;
    } else {
      assert (a + b)[..|a + b| - 1] == a + b[..|b| - 1];
      UnitsAppend(a, b[..|b| - 1]);
    }
  }

  lemma {:induction false} LayoutUnits(tokens: seq<Token>)
    requires AllCodable(tokens)
    ensures AllUnits(tokens) <= 8 * |Layout(tokens)|
    decreases |tokens|
  {
    if tokens != [] {
      var k := |tokens| - LastGroup(|tokens|);
      assert tokens == tokens[..k] + tokens[k..];
      LayoutUnits(tokens[..k]);
      BodyUnits(tokens[k..]);
      UnitsAppend(tokens[..k], tokens[k..]);
    }
  }

  lemma StaticSizes(sym: nat)
    ensures sym < 256 ==> FixedMain()[sym] <= 9
    ensures 256 <= sym < 288 ==> FixedMain()[sym] <= 8
    ensures sym < 32 ==> FixedDist()[sym] == 5
  {
  }

  function MatchTokens(tokens: seq<Token>): nat {
    if tokens == [] then 0 else MatchTokens(tokens[..|tokens| - 1]) + if tokens[|tokens| - 1].Match? then 1 else 0
  }

  /** What limiting the lengths can cost a token, in 500ths of a bit: a main code, and a distance code for a match. */
  function Share(t: Token): nat {
    if t.Literal? then 477 else 477 + 44
  }

  lemma StaticTokenBits(t: Token)
    requires Coverable(t, FixedMain(), FixedDist())
    ensures 500 * |TokenBits(t, FixedMain(), FixedDist())| + Share(t) <= 641 * Units(t)
  {
    hide FixedMain, FixedDist, LengthSymbol, DistSymbol;
    StaticSizes(MainSymbol(t));
    if t.Match? {
      StaticSizes(DistSymbol(t.dist - 1));
    }
  }

  lemma {:induction false} StaticTokensBits(tokens: seq<Token>)
    requires AllCoverable(tokens, FixedMain(), FixedDist())
    ensures 500 * |TokensBits(tokens, FixedMain(), FixedDist())| + 477 * |tokens| + 44 * MatchTokens(tokens) <= 641 * AllUnits(tokens)
  {
    hide FixedMain, FixedDist, TokenBits, Coverable, Units;
    if tokens != [] {
      var init, t := tokens[..|tokens| - 1], tokens[|tokens| - 1];
      assert Coverable(t, FixedMain(), FixedDist());
      StaticTokenBits(t);
      StaticTokensBits(init);
      assert tokens == init + [t];
      TokensBitsSnoc(init, t, FixedMain(), FixedDist());
    }
  }

  /** A static block is little longer than the codes it is made from, even with all that limiting may cost. */
  lemma StaticBlockBits(tokens: seq<Token>)
    requires AllCodable(tokens) && AllCoverable(tokens, FixedMain(), FixedDist()) && Used(FixedMain(), END_OF_BLOCK)
    ensures 500 * |BlockBits(tokens, FixedMain(), FixedDist())| + 477 * (|tokens| + 1) + 44 * MatchTokens(tokens)
      <= 5128 * |Layout(tokens)| + 4477
  {
    hide FixedMain, FixedDist, TokensBits, Layout, AllUnits, MatchTokens;
    StaticTokensBits(tokens);
    LayoutUnits(tokens);
    StaticSizes(END_OF_BLOCK);
  }

  // ----- a block's length as the cost of its tables

  function MainCounts(tokens: seq<Token>): (r: seq<nat>)
    requires AllCodable(tokens)
    ensures |r| == 288 && forall sym :: 0 <= sym < 288 ==> r[sym] == MainCount(tokens, sym)
  {
    seq(288, sym requires 0 <= sym < 288 => MainCount(tokens, sym))
  }

  function DistCounts(tokens: seq<Token>): (r: seq<nat>)
    requires AllCodable(tokens)
    ensures |r| == 32 && forall sym :: 0 <= sym < 32 ==> r[sym] == DistCount(tokens, sym)
  {
    seq(32, sym requires 0 <= sym < 32 => DistCount(tokens, sym))
  }

  lemma CountsMore(tokens: seq<Token>, t: Token)
    requires AllCodable(tokens) && Codable(t)
    ensures AllCodable(tokens + [t])
    ensures MainCounts(tokens + [t]) == CountedMain(MainCounts(tokens), t)
    ensures DistCounts(tokens + [t]) == CountedDist(DistCounts(tokens), t)
  {
    hide MainSymbol, DistSymbol;
    CountsSnoc(tokens, t, 0);
    forall sym: nat | sym < 288 ensures MainCounts(tokens + [t])[sym] == CountedMain(MainCounts(tokens), t)[sym] {
      CountsSnoc(tokens, t, sym);
    }
    forall sym: nat | sym < 32 ensures DistCounts(tokens + [t])[sym] == CountedDist(DistCounts(tokens), t)[sym] {
      CountsSnoc(tokens, t, sym);
    }
  }

  lemma CostOfOneMore(w: seq<nat>, lens: seq<nat>, k: nat)
    requires |w| == |lens| && k < |w|
    ensures Cost(w[k := w[k] + 1], lens) == Cost(w, lens) + lens[k]
  {
    var more: seq<nat> := w[k := w[k] + 1];
    SumUpdate(Products(w, lens), k, more[k] * lens[k]);
    assert Products(more, lens) == Products(w, lens)[k := more[k] * lens[k]];
  }

  /** Bits that do not depend on the tables. */
  function ExtraLength(t: Token): nat
    requires Codable(t)
  {
    if t.Literal? then 0 else |LengthExtraBits(t.len)| + |DistExtraBits(t.dist)|
  }

  function AllExtra(tokens: seq<Token>): nat
    requires AllCodable(tokens)
  {
    if tokens == [] then 0 else AllExtra(tokens[..|tokens| - 1]) + ExtraLength(tokens[|tokens| - 1])
  }

  lemma {:induction false} BitsAreCosts(tokens: seq<Token>, main: seq<nat>, dist: seq<nat>)
    requires AllCodable(tokens) && AllCoverable(tokens, main, dist) && |main| == 288 && |dist| == 32
    ensures |TokensBits(tokens, main, dist)| == Cost(MainCounts(tokens), main) + Cost(DistCounts(tokens), dist) + AllExtra(tokens)
    ensures Sum(DistCounts(tokens)) == MatchTokens(tokens)
  {
    hide Cost, MainSymbol, DistSymbol, MainCounts, DistCounts, CountedMain, CountedDist, LengthExtraBits, DistExtraBits, Coverable, Sum,
      Codable, TokenBits, ExtraLength;
    if tokens == [] {
      NoneCost(main, dist);
    } else {
      var init, t := tokens[..|tokens| - 1], tokens[|tokens| - 1];
      assert Coverable(t, main, dist) && Codable(t);
      BitsAreCosts(init, main, dist);
      assert tokens == init + [t];
      TokensBitsSnoc(init, t, main, dist);
      CountsMore(init, t);
      TokenCost(MainCounts(init), DistCounts(init), t, main, dist);
    }
  }

  lemma NoneCost(main: seq<nat>, dist: seq<nat>)
    requires |main| == 288 && |dist| == 32
    ensures Cost(MainCounts([]), main) == 0 == Cost(DistCounts([]), dist) && Sum(DistCounts([])) == 0
  {
    SumConstant(Products(MainCounts([]), main), 0);
    SumConstant(Products(DistCounts([]), dist), 0);
    SumConstant(DistCounts([]), 0);
  }

  lemma TokenCost(mainCount: seq<nat>, distCount: seq<nat>, t: Token, main: seq<nat>, dist: seq<nat>)
    requires |mainCount| == |main| == 288 && |distCount| == |dist| == 32 && Coverable(t, main, dist)
    ensures Cost(CountedMain(mainCount, t), main) + Cost(CountedDist(distCount, t), dist) + ExtraLength(t)
      == Cost(mainCount, main) + Cost(distCount, dist) + |TokenBits(t, main, dist)|
    ensures Sum(CountedDist(distCount, t)) == Sum(distCount) + if t.Match? then 1 else 0
  {
    hide Cost, LengthSymbol, DistSymbol, Sum, CodeWord, LengthExtraBits, DistExtraBits;
    CostOfOneMore(mainCount, main, MainSymbol(t));
    if t.Match? {
      var sym := DistSymbol(t.dist - 1);
      CostOfOneMore(distCount, dist, sym);
      SumUpdate(distCount, sym, distCount[sym] + 1);
    }
  }

  /** A block's length is what its two tables cost on its counts, and its extra bits. */
  lemma BlockCost(tokens: seq<Token>, main: seq<nat>, dist: seq<nat>)
    requires AllCodable(tokens) && AllCoverable(tokens, main, dist) && |main| == 288 && |dist| == 32 && Used(main, END_OF_BLOCK)
    ensures |BlockBits(tokens, main, dist)|
      == Cost(MainCounts(tokens)[256 := 1], main) + Cost(DistCounts(tokens), dist) + AllExtra(tokens)
  {
    hide Cost, CodeWord, TokensBits;
    BitsAreCosts(tokens, main, dist);
    LastSymbolsUnused(tokens, 256);
    CostOfOneMore(MainCounts(tokens), main, 256);
  }

  lemma FixedCoversCounts(tokens: seq<Token>)
    requires AllCodable(tokens)
    ensures Covers(FixedMain(), LIMIT, MainCounts(tokens)[256 := 1]) && Covers(FixedDist(), LIMIT, DistCounts(tokens))
  {
    hide MainCounts, DistCounts, Fits, Complete;
    FixedIsComplete();
  }

  /** A block's dynamic form is little longer than its static form. */
  lemma DynamicAgainstStatic(tokens: seq<Token>, main: seq<nat>, dist: seq<nat>)
    requires AllCodable(tokens) && AllCoverable(tokens, main, dist) && Used(main, END_OF_BLOCK)
    requires AllCoverable(tokens, FixedMain(), FixedDist()) && Used(FixedMain(), END_OF_BLOCK)
    requires WellBuilt(MainCounts(tokens)[256 := 1], main) && WellBuilt(DistCounts(tokens), dist)
    requires Sum(MainCounts(tokens)) == |tokens|
    ensures 500 * |BlockBits(tokens, main, dist)|
      <= 500 * |BlockBits(tokens, FixedMain(), FixedDist())| + 477 * (|tokens| + 1) + 44 * MatchTokens(tokens)
  {
    hide Cost, Sum, MainCounts, DistCounts, WellBuilt, Covers, FixedMain, FixedDist, BlockBits, AllCoverable, LastPays, Coverable,
      Pow2, MatchTokens, MainCount, DistCount;
    FixedCoversCounts(tokens);
    LastPaysExtra();
    RoomyPowers();
    var mainCount: seq<nat> := MainCounts(tokens)[256 := 1];
    forall i | 286 <= i < 288 ensures mainCount[i] == 0 { LastSymbolsUnused(tokens, i); }
    forall i | 30 <= i < 32 ensures DistCounts(tokens)[i] == 0 { LastSymbolsUnused(tokens, i); }
    CostAgainst(mainCount, main, 286, FixedMain(), 9, 191);
    CostAgainst(DistCounts(tokens), dist, 30, FixedDist(), 5, 14);
    LastSymbolsUnused(tokens, 256);
    SumUpdate(MainCounts(tokens), 256, 1);
    BitsAreCosts(tokens, main, dist);
    BlockCost(tokens, main, dist);
    BlockCost(tokens, FixedMain(), FixedDist());
  }

  lemma RoomyPowers()
    ensures 286 <= Pow2(9) <= Pow2(LIMIT) && 30 <= Pow2(5) <= Pow2(LIMIT)
  {
    Powers();
    Pow2Monotone(9, LIMIT);
    Pow2Monotone(5, LIMIT);
  }

  /** Whatever its counts, a dynamic block needs hardly more bits than the codes it is made from. */
  lemma DynamicBlockBits(tokens: seq<Token>, mainCount: seq<nat>, distCount: seq<nat>, main: seq<nat>, dist: seq<nat>)
    requires TokensCounted(mainCount, distCount, tokens)
    requires AllCoverable(tokens, main, dist) && Used(main, END_OF_BLOCK)
    requires WellBuilt(mainCount[256 := 1], main) && WellBuilt(distCount, dist)
    ensures 500 * |BlockBits(tokens, main, dist)| <= 5128 * |Layout(tokens)| + 4477
  {
    hide WellBuilt, Sum, FixedMain, FixedDist, BlockBits, AllCoverable, Layout, MatchTokens, MainCount, DistCount;
    assert mainCount == MainCounts(tokens) && distCount == DistCounts(tokens);
    FixedCovers(tokens);
    DynamicAgainstStatic(tokens, main, dist);
    StaticBlockBits(tokens);
  }
}
