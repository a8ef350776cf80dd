/** The inflater itself, run on a whole stream: fast tables, bit buffer and unrolled copying against reading bit by bit. */
module Inflater {
  import opened Sequences
  import opened Wrappers
  import opened Arithmetic
  import opened PrefixCodes
  import opened CanonicalCodes
  import opened BitBuffers
  import opened InflateTable
  import opened LzTokens
  import opened MatchCopy
  import opened CodeLengthRuns
  import opened DynamicHeader
  import opened DeflateBlock
  import opened Inflate
  import opened BitReaders
  import opened Adler32
  import ZlibFormat

  // ----- tables

  class HuffTable {
    const sizes: array<nat>
    const look: array<int>
    const tree: array<int>
    ghost var nodes: seq<Word>

    ghost predicate Shape() {
      sizes.Length == MAX_SYMBOLS && look.Length == FAST_SIZE && tree.Length == 2 * MAX_SYMBOLS && look != tree
    }

    /** The table decodes the code with these lengths. */
    ghost predicate Has(s: seq<nat>)
      reads this, look, tree
    {
      Shape() && Ready(look[..], tree[..], s, nodes)
    }

    constructor ()
      ensures Shape() && fresh(sizes) && fresh(look) && fresh(tree)
    {
      sizes, look, tree := new nat[MAX_SYMBOLS](_ => 0), new int[FAST_SIZE](_ => 0), new int[2 * MAX_SYMBOLS](_ => 0);
      nodes := [];
    }

    /** Builds the table for the first `used` lengths. */
    method Build(used: nat) returns (ok: bool)
      requires Shape() && used <= MAX_SYMBOLS && Accepted(sizes[..used])
      modifies this, look, tree
      ensures ok && Has(sizes[..used])
    {
      hide Table, Complete, Lone, Accepted;
      AcceptedMeans(sizes[..used]);
      ok, nodes := BuildTable(sizes, used, look, tree);
    }

    method Decode(r: BitReader, ghost s: seq<nat>) returns (sym: nat)
      requires Has(s) && r.Valid() && ReadSymbol(r.Rest(), s).Read?
      modifies r
      ensures r.Valid() && Read(sym, r.Rest()) == old(ReadSymbol(r.Rest(), s)) && sym < MAX_SYMBOLS
      ensures |r.Rest()| < |old(r.Rest())|
    {
      hide Ready, LowBits, Pow2, Ahead, BitsOfBytes, CanonicalCodes.Decode, Fits, Expected, Bytes;
      ReadyFits(look[..], tree[..], s, nodes);
      ReadyIsSmall(look[..], tree[..], s, nodes);
      ReadIsExpected(s, r.buffer, r.count, r.input, r.pos);
      ghost var k, stream, len;
      var buffer, count, pos;
      sym, buffer, count, pos, k, stream, len := HuffDecode(look, tree, r.buffer, r.count, r.input, r.pos, s, nodes);
      SymbolIsRead(s, r.buffer, r.count, r.input, r.pos, k, stream, sym, len, buffer, count, pos);
      SymbolShape(s, r.Rest());
      r.buffer, r.count, r.pos := buffer, count, pos;
    }
  }

  lemma AcceptedMeans(s: seq<nat>)
    requires Accepted(s)
    ensures (forall i :: 0 <= i < |s| ==> s[i] <= MAX_BITS) && (Complete(s, MAX_BITS) || Lone(s))
  {
  }

  lemma ReadyIsSmall(look: seq<int>, tree: seq<int>, s: seq<nat>, nodes: seq<Word>)
    requires Ready(look, tree, s, nodes)
    ensures |s| <= MAX_SYMBOLS
  {
  }

  lemma SymbolShape(s: seq<nat>, bits: Word)
    requires Fits(s, MAX_BITS) && |s| <= MAX_SYMBOLS && ReadSymbol(bits, s).Read?
    ensures ReadSymbol(bits, s).value < MAX_SYMBOLS && |ReadSymbol(bits, s).rest| < |bits|
  {
    DecodedWord(s, bits);
  }

  // ----- what is left of a coded block

  lemma {:induction false} ExpandFirst(out: seq<nat>, t: Token, more: seq<Token>)
    ensures ExpandFrom(out, [t] + more) ==
      match Apply(out, t)
      case None => None
      case Some(longer) => ExpandFrom(longer, more)
    decreases |more|
  {
    hide Apply;
    if more == [] {
      assert [t] + more == [t] && [t][..0] == [];
    } else {
      ExpandFirst(out, t, more[..|more| - 1]);
      assert ([t] + more)[..|more|] == [t] + more[..|more| - 1];
    }
  }

  lemma {:induction false} ExpandKeeps(out: seq<nat>, tokens: seq<Token>)
    requires ExpandFrom(out, tokens).Some?
    ensures out <= ExpandFrom(out, tokens).value
  {
    if tokens != [] { ExpandKeeps(out, tokens[..|tokens| - 1]); }
  }

  /** The tokens still to be read take the output from h to goal, and end at tail. */
  ghost predicate Leads(bits: Word, m: seq<nat>, d: seq<nat>, h: seq<nat>, goal: seq<nat>, tail: Word) {
    match ReadTokens(bits, m, d)
    case Fail => false
    case Read(tokens, rest) => rest == tail && ExpandFrom(h, tokens) == Some(goal)
  }

  /** The symbol that comes next, and what it leaves. */
  lemma NextSymbol(bits: Word, m: seq<nat>, d: seq<nat>, h: seq<nat>, goal: seq<nat>, tail: Word)
    requires Leads(bits, m, d, h, goal, tail)
    ensures h <= goal && ReadSymbol(bits, m).Read?
    ensures var sym, rest := ReadSymbol(bits, m).value, ReadSymbol(bits, m).rest;
      && (sym == END_OF_BLOCK ==> rest == tail && h == goal)
      && (sym < END_OF_BLOCK ==> |h| < |goal| && Leads(rest, m, d, h + [sym], goal, tail))
      && (sym > END_OF_BLOCK ==> MatchNext(rest, sym, m, d, h, goal, tail))
  {
    hide ReadSymbol, ReadMatch, CopyBack;
    var all, sym, rest := ReadTokens(bits, m, d).value, ReadSymbol(bits, m).value, ReadSymbol(bits, m).rest;
    ExpandKeeps(h, all);
    if sym != END_OF_BLOCK {
      if sym > END_OF_BLOCK { MatchIsLong(rest, sym, d); }
      ExpandFirst(h, all[0], all[1..]);
      assert all == [all[0]] + all[1..];
      ExpandKeeps(Apply(h, all[0]).value, all[1..]);
    }
  }

  /** Behind a length symbol: the rest of a match, and what it leaves. */
  ghost predicate MatchNext(bits: Word, sym: nat, m: seq<nat>, d: seq<nat>, h: seq<nat>, goal: seq<nat>, tail: Word)
    requires sym >= 257
  {
    match ReadMatch(bits, sym, d)
    case Fail => false
    case Read(t, rest) =>
      && t.Match? && 1 <= t.dist <= |h| && |h| + t.len <= |goal| && Leads(rest, m, d, CopyBack(h, t.dist, t.len), goal, tail)
  }

  /** Lengths are at least three. */
  lemma MatchIsLong(bits: Word, sym: nat, d: seq<nat>)
    requires sym >= 257 && ReadMatch(bits, sym, d).Read?
    ensures ReadMatch(bits, sym, d).value.Match? && ReadMatch(bits, sym, d).value.len >= 3
    ensures |ReadMatch(bits, sym, d).rest| <= |bits|
  {
    hide Reversed, CanonicalCodes.Decode;
    BaseIsLong(sym - 257);
  }

  lemma BaseIsLong(i: nat)
    ensures i < 29 ==> LENGTH_BASE[i] >= 3
  {
  }

  /** The parts of a match, one after the other. */
  lemma MatchParts(bits: Word, sym: nat, d: seq<nat>)
    requires sym >= 257 && ReadMatch(bits, sym, d).Read?
    ensures sym - 257 < 29 && LENGTH_EXTRA[sym - 257] <= |bits|
    ensures var bits1 := GetBits(bits, LENGTH_EXTRA[sym - 257]).rest;
      && ReadSymbol(bits1, d).Read?
      && var distSym, bits2 := ReadSymbol(bits1, d).value, ReadSymbol(bits1, d).rest;
        && distSym < 30 && DIST_EXTRA[distSym] <= |bits2|
        && ReadMatch(bits, sym, d) == Read(Match(LENGTH_BASE[sym - 257] + GetBits(bits, LENGTH_EXTRA[sym - 257]).value,
                                                 DIST_BASE[distSym] + GetBits(bits2, DIST_EXTRA[distSym]).value),
                                           GetBits(bits2, DIST_EXTRA[distSym]).rest)
  {
    hide Reversed, ReadSymbol;
  }

  lemma PrefixHolds(buf: seq<nat>, h: seq<nat>)
    requires |h| <= |buf| && |buf| > 0 && buf[..|h|] == h
    ensures MatchCopy.Holds(buf, h)
  {
    forall p | 0 <= p < |h| ensures InBuffer(buf, h, p) {
      SmallMod(p, |buf|);
      assert buf[p] == buf[..|h|][p];
    }
  }

  // ----- what is left of a header

  lemma NextSize(bits: Word, from: nat, end: nat, sizes: seq<nat>)
    requires |sizes| == ITEM_CODES && from < end <= ITEM_CODES && ReadSizes(bits, from, end, sizes).Read?
    ensures |bits| >= 3
    ensures ReadSizes(bits, from, end, sizes)
      == ReadSizes(GetBits(bits, 3).rest, from + 1, end, sizes[SWIZZLE[from] := GetBits(bits, 3).value])
  {
    hide Reversed;
  }

  lemma NoMoreSizes(bits: Word, end: nat, sizes: seq<nat>)
    requires |sizes| == ITEM_CODES && end <= ITEM_CODES
    ensures ReadSizes(bits, end, end, sizes) == Read(sizes, bits)
  {
  }

  lemma NoExtraBits(bits: Word)
    ensures GetBits(bits, 0) == Read(0, bits)
  {
  }

  /** Behind a length code: its extra bits, and the lengths it leaves to be read. */
  ghost predicate RunNext(bits: Word, code: nat, sizes: seq<nat>, total: nat, sofar: seq<nat>, all: seq<nat>, rest: Word) {
    && ExtraBits(code) <= |bits|
    && var item := Item(code, GetBits(bits, ExtraBits(code)).value);
      match UnpackItem(sofar, item)
      case None => false
      case Some(more) =>
        && |sofar| < |more| <= total && (code == 16 ==> sofar != []) && code <= 18
        && ReadLengths(GetBits(bits, ExtraBits(code)).rest, sizes, total, more) == Read(all, rest)
  }

  lemma NextLengths(bits: Word, sizes: seq<nat>, total: nat, sofar: seq<nat>)
    requires Fits(sizes, MAX_BITS) && |sizes| == ITEM_CODES && |sofar| < total && ReadLengths(bits, sizes, total, sofar).Read?
    ensures ReadSymbol(bits, sizes).Read?
    ensures var r := ReadLengths(bits, sizes, total, sofar);
      RunNext(ReadSymbol(bits, sizes).rest, ReadSymbol(bits, sizes).value, sizes, total, sofar, r.value, r.rest)
  {
    hide Reversed, CanonicalCodes.Decode, Fits;
    DecodedWord(sizes, bits);
    var len := CanonicalCodes.Decode(sizes, MAX_BITS, bits).len;
    FitsSize(sizes, CanonicalCodes.Decode(sizes, MAX_BITS, bits).sym);
    var code := ReadSymbol(bits, sizes).value;
    var got := GetBits(bits[len..], ExtraBits(code));
    var more := UnpackItem(sofar, Item(code, got.value)).value;
    LengthsInTotal(got.rest, sizes, total, more);
  }

  lemma LengthsInTotal(bits: Word, sizes: seq<nat>, total: nat, sofar: seq<nat>)
    requires ReadLengths(bits, sizes, total, sofar).Read?
    ensures |sofar| <= total
  {
  }

  lemma LengthsEnd(bits: Word, sizes: seq<nat>, total: nat, sofar: seq<nat>)
    requires |sofar| == total
    ensures ReadLengths(bits, sizes, total, sofar) == Read(sofar, bits)
  {
  }

  /** The counts in front of a dynamic block's tables. */
  lemma HeaderParts(bits: Word)
    requires ReadHeader(bits).Some?
    ensures |bits| >= 14
    ensures var main, bits1 := GetBits(bits, 5).value, GetBits(bits, 5).rest;
      var dist, bits2 := GetBits(bits1, 5).value, GetBits(bits1, 5).rest;
      && |bits1| >= 5 && |bits2| >= 4 && main < 32 && dist < 32 && GetBits(bits2, 4).value < 16
      && ReadHeader(bits) == ReadTables(GetBits(bits2, 4).rest, main + 257, dist + 1, GetBits(bits2, 4).value + 4)
  {
    hide ReadTables, Reversed;
    assert Pow2(4) == 16 && Pow2(5) == 32;
    LowBitsOfReversed(bits[..5]);
    LowBitsOfReversed(bits[5..][..5]);
    LowBitsOfReversed(bits[5..][5..][..4]);
  }

  lemma TableParts(bits: Word, main: nat, dist: nat, lengths: nat) returns (sizes: seq<nat>, bits1: Word, all: seq<nat>)
    requires ReadTables(bits, main, dist, lengths).Some?
    ensures lengths <= ITEM_CODES && ReadSizes(bits, 0, lengths, Copies(0, ITEM_CODES)) == Read(sizes, bits1)
    ensures |sizes| == ITEM_CODES && Accepted(sizes) && |all| == main + dist
    ensures var h := ReadTables(bits, main, dist, lengths).value;
      && ReadLengths(bits1, sizes, main + dist, []) == Read(all, h.rest)
      && h.main == all[..main] && h.dist == all[main..]
  {
    hide Accepted, ReadLengths;
    var r := ReadSizes(bits, 0, lengths, Copies(0, ITEM_CODES));
    SizesCount(bits, 0, lengths, Copies(0, ITEM_CODES));
    sizes, bits1 := r.value, r.rest;
    all := ReadLengths(bits1, sizes, main + dist, []).value;
  }

  lemma {:induction false} SizesCount(bits: Word, from: nat, end: nat, sizes: seq<nat>)
    requires |sizes| == ITEM_CODES && from <= end <= ITEM_CODES && ReadSizes(bits, from, end, sizes).Read?
    ensures |ReadSizes(bits, from, end, sizes).value| == ITEM_CODES
    decreases end - from
  {
    hide Reversed;
    if from < end {
      SwizzleIsPermutation();
      SizesCount(GetBits(bits, 3).rest, from + 1, end, sizes[SWIZZLE[from] := GetBits(bits, 3).value]);
    }
  }

  lemma FixedIsAccepted()
    ensures Accepted(FixedMain()) && Accepted(FixedDist())
  {
    hide Complete, Fits;
    FixedIsComplete();
  }

  // ----- blocks

  lemma SixteenBits(bits: Word)
    requires |bits| >= 16
    ensures var low := GetBits(bits, 8);
      |low.rest| >= 8 && GetBits(bits, 16) == Read(low.value + 256 * GetBits(low.rest, 8).value, GetBits(low.rest, 8).rest)
  {
    hide Reversed;
    assert Pow2(8) == 256;
    ReversedJoin(bits[..8], bits[8..][..8]);
    assert bits[..16] == bits[..8] + bits[8..][..8];
  }

  lemma StoredParts(bits: Word)
    requires ReadStored(bits).Read?
    ensures |bits| >= 32
    ensures var len := GetBits(bits, 16);
      var data := GetBits(len.rest, 16).rest;
      && |len.rest| >= 16 && 8 * len.value <= |data| && ReadStored(bits) == Read(BytesOf(data, len.value), data[8 * len.value..])
  {
    hide Reversed, BytesOf;
  }

  lemma FirstOfBytes(bits: Word, n: nat)
    requires n > 0 && 8 * n <= |bits|
    ensures BytesOf(bits, n) == [GetBits(bits, 8).value] + BytesOf(GetBits(bits, 8).rest, n - 1)
    ensures |GetBits(bits, 8).rest| == |bits| - 8 && bits[8 * n..] == GetBits(bits, 8).rest[8 * (n - 1)..]
  {
    hide Reversed;
  }

  lemma NoBytesLeft(bits: Word)
    ensures BytesOf(bits, 0) == [] && bits[0..] == bits
  {
  }

  ghost predicate DynamicParts(bits: Word, b: BlockRead)
    requires b.BlockRead?
  {
    match ReadHeader(bits)
    case None => false
    case Some(h) =>
      && b.block.Coded? && Accepted(h.main) && Accepted(h.dist)
      && ReadTokens(h.rest, h.main, h.dist) == Read(b.block.tokens, b.rest)
  }

  /** The head of a block, and what it leaves. */
  lemma BlockParts(bits: Word)
    requires ReadBlock(bits).BlockRead?
    ensures |bits| >= 3
    ensures var b, head, rest := ReadBlock(bits), GetBits(bits, 3).value, GetBits(bits, 3).rest;
      && b.final == (head % 2 == 1)
      && (head / 2 == 0 ==> b.block.Stored? && ReadStored(Aligned(rest)) == Read(b.block.bytes, b.rest))
      && (head / 2 == 1 ==> b.block.Coded? && ReadTokens(rest, FixedMain(), FixedDist()) == Read(b.block.tokens, b.rest))
      && (head / 2 > 1 ==> DynamicParts(rest, b))
  {
    hide Reversed, ReadStored, ReadTokens, ReadHeader, Accepted, Aligned, FixedMain, FixedDist;
    assert Pow2(3) == 8;
    LowBitsOfReversed(bits[..3]);
  }

  lemma {:induction false} InflateGrows(bits: Word, out: seq<nat>)
    requires InflateFrom(bits, out).Inflated?
    ensures out <= InflateFrom(bits, out).out
    decreases |bits|
  {
    hide ReadBlock;
    var b := ReadBlock(bits);
    if b.block.Coded? { ExpandKeeps(out, b.block.tokens); }
    if !b.final { InflateGrows(b.rest, ApplyBlock(out, b.block).value); }
  }

  lemma NextBlock(bits: Word, out: seq<nat>)
    requires InflateFrom(bits, out).Inflated?
    ensures ReadBlock(bits).BlockRead? && ApplyBlock(out, ReadBlock(bits).block).Some?
    ensures var b, r := ReadBlock(bits), InflateFrom(bits, out);
      var longer := ApplyBlock(out, b.block).value;
      && |longer| <= |r.out|
      && if b.final then r == Inflated(longer, b.rest) else |b.rest| < |bits| && InflateFrom(b.rest, longer) == r
  {
    hide ReadBlock;
    var b := ReadBlock(bits);
    if !b.final { InflateGrows(b.rest, ApplyBlock(out, b.block).value); }
  }

  // ----- what comes out is bytes

  lemma {:induction false} CopyBackBytes(out: seq<nat>, dist: nat, len: nat)
    requires 1 <= dist <= |out| && Bytes(out)
    ensures Bytes(CopyBack(out, dist, len))
    decreases len
  {
    if len > 0 { CopyBackBytes(out + [out[|out| - dist]], dist, len - 1); }
  }

  predicate ByteTokens(tokens: seq<Token>) {
    forall i :: 0 <= i < |tokens| && tokens[i].Literal? ==> tokens[i].byte < 256
  }

  lemma {:induction false} ReadBytes(bits: Word, m: seq<nat>, d: seq<nat>)
    requires ReadTokens(bits, m, d).Read?
    ensures ByteTokens(ReadTokens(bits, m, d).value)
    decreases |bits|
  {
    hide ReadSymbol, ReadMatch;
    var sym, rest := ReadSymbol(bits, m).value, ReadSymbol(bits, m).rest;
    if sym < END_OF_BLOCK {
      ReadBytes(rest, m, d);
    } else if sym > END_OF_BLOCK {
      MatchIsLong(rest, sym, d);
      ReadBytes(ReadMatch(rest, sym, d).rest, m, d);
    }
  }

  lemma {:induction false} ExpandBytes(out: seq<nat>, tokens: seq<Token>)
    requires Bytes(out) && ByteTokens(tokens) && ExpandFrom(out, tokens).Some?
    ensures Bytes(ExpandFrom(out, tokens).value)
  {
    if tokens != [] {
      var most, t := tokens[..|tokens| - 1], tokens[|tokens| - 1];
      ExpandBytes(out, most);
      if t.Match? { CopyBackBytes(ExpandFrom(out, most).value, t.dist, t.len); }
    }
  }

  lemma {:induction false} StoredBytes(bits: Word, n: nat)
    requires 8 * n <= |bits|
    ensures Bytes(BytesOf(bits, n))
    decreases n
  {
    hide Reversed;
    if n > 0 {
      assert Pow2(8) == 256;
      LowBitsOfReversed(bits[..8]);
      StoredBytes(bits[8..], n - 1);
    }
  }

  lemma BlockBytes(bits: Word, out: seq<nat>)
    requires ReadBlock(bits).BlockRead? && Bytes(out) && ApplyBlock(out, ReadBlock(bits).block).Some?
    ensures Bytes(ApplyBlock(out, ReadBlock(bits).block).value)
  {
    hide Bytes, ReadTokens, ReadBlock, ReadStored, ReadHeader, Accepted, FixedMain, FixedDist, BytesOf;
    BlockParts(bits);
    var rest, b := GetBits(bits, 3).rest, ReadBlock(bits);
    if b.block.Stored? {
      var data := Aligned(rest);
      StoredParts(data);
      StoredBytes(GetBits(GetBits(data, 16).rest, 16).rest, GetBits(data, 16).value);
      BytesJoin(out, b.block.bytes);
    } else {
      if GetBits(bits, 3).value / 2 == 1 {
        ReadBytes(rest, FixedMain(), FixedDist());
      } else {
        var h := ReadHeader(rest).value;
        ReadBytes(h.rest, h.main, h.dist);
      }
      ExpandBytes(out, b.block.tokens);
    }
  }

  lemma BytesJoin(a: seq<nat>, b: seq<nat>)
    requires Bytes(a) && Bytes(b)
    ensures Bytes(a + b)
  {
  }

  lemma {:induction false} InflateBytes(bits: Word, out: seq<nat>)
    requires Bytes(out) && InflateFrom(bits, out).Inflated?
    ensures Bytes(InflateFrom(bits, out).out)
    decreases |bits|
  {
    hide Bytes, ReadBlock;
    NextBlock(bits, out);
    BlockBytes(bits, out);
    var b := ReadBlock(bits);
    if !b.final { InflateBytes(b.rest, ApplyBlock(out, b.block).value); }
  }

  // ----- zlib streams

  /** Behind a good header the stream has an end, whose output there is room for, and a checksum. */
  ghost predicate WholeInput(input: seq<nat>, room: nat) {
    && |input| >= 2
    && (GoodHeader(input[0], input[1]) ==>
          match InflateFrom(ByteBits(input)[16..], [])
          case Broken => false
          case Inflated(out, rest) => |out| <= room && |Aligned(rest)| >= 32)
  }

  lemma TwoBytesIn(input: seq<nat>)
    requires Bytes(input) && |input| >= 2
    ensures GetBits(ByteBits(input), 8) == Read(input[0], ByteBits(input)[8..])
    ensures GetBits(ByteBits(input)[8..], 8) == Read(input[1], ByteBits(input)[16..])
  {
    hide Reversed, LowBits, BitsOfBytes;
    BytesBack(input, []);
    assert ByteBits(input) + [] == ByteBits(input);
    FirstOfBytes(ByteBits(input), |input|);
    FirstOfBytes(ByteBits(input)[8..], |input| - 1);
    assert ByteBits(input)[8..][8..] == ByteBits(input)[16..];
  }

  lemma FourBytesOf(bits: Word)
    requires |bits| >= 32
    ensures var a := GetBits(bits, 8);
      var b := GetBits(a.rest, 8);
      var c := GetBits(b.rest, 8);
      && |a.rest| >= 24 && |b.rest| >= 16 && |c.rest| >= 8
      && BytesOf(bits, 4) == [a.value, b.value, c.value, GetBits(c.rest, 8).value] && Bytes(BytesOf(bits, 4))
  {
    hide Reversed;
    var a := GetBits(bits, 8);
    FirstOfBytes(bits, 4);
    FirstOfBytes(a.rest, 3);
    FirstOfBytes(GetBits(a.rest, 8).rest, 2);
    FirstOfBytes(GetBits(GetBits(a.rest, 8).rest, 8).rest, 1);
    NoBytesLeft(GetBits(GetBits(GetBits(GetBits(bits, 8).rest, 8).rest, 8).rest, 8).rest);
    StoredBytes(bits, 4);
  }

  lemma NoBytesYet()
    ensures Bytes([])
  {
  }

  /** What four shifts leave of the 1 to start with, modulo 2^32. */
  lemma FourShifts(bytes: seq<nat>)
    requires Bytes(bytes) && |bytes| == 4
    ensures bytes[0] < 256 && bytes[1] < 256 && bytes[2] < 256 && bytes[3] < 256
    ensures var z1 := 1 * 256 % TWO_TO_32 + bytes[0];
      var z2 := z1 * 256 % TWO_TO_32 + bytes[1];
      var z3 := z2 * 256 % TWO_TO_32 + bytes[2];
      z3 * 256 % TWO_TO_32 + bytes[3] == BigEndian(bytes)
  {
    var b0, b1, b2 := bytes[0], bytes[1], bytes[2];
    assert (256 + b0) * 256 % TWO_TO_32 == (256 + b0) * 256;
    assert ((256 + b0) * 256 + b1) * 256 % TWO_TO_32 == ((256 + b0) * 256 + b1) * 256;
    var low: nat := ((b0 * 256 + b1) * 256 + b2) * 256;
    assert (((256 + b0) * 256 + b1) * 256 + b2) * 256 == TWO_TO_32 + low && low < TWO_TO_32;
  }

  lemma AllAhead(buffer: nat, input: seq<nat>)
    ensures Ahead(buffer, 0, input, 0) == ByteBits(input)
  {
    assert [] + ByteBits(input) == ByteBits(input);
  }

  // ----- the inflater

  class Decompressor {
    const r: BitReader
    const main: HuffTable
    const dist: HuffTable
    const lengths: HuffTable
    const lenCodes: array<nat>
    const out: array<nat>
    var cursor: nat

    ghost predicate Separate() {
      && main.Shape() && dist.Shape() && lengths.Shape() && lenCodes.Length == 457
      && main != dist && main != lengths && dist != lengths
      && out !in {main.sizes, dist.sizes, lengths.sizes, lenCodes} && lenCodes !in {main.sizes, dist.sizes, lengths.sizes}
      && main.sizes != dist.sizes && main.sizes != lengths.sizes && dist.sizes != lengths.sizes
      && main.look !in {dist.look, dist.tree, lengths.look, lengths.tree}
      && main.tree !in {dist.look, dist.tree, lengths.look, lengths.tree}
      && dist.look !in {lengths.look, lengths.tree} && dist.tree !in {lengths.look, lengths.tree}
    }

    constructor (input: seq<nat>, output: array<nat>)
      requires Bytes(input)
      ensures Separate() && r.Valid() && r.Rest() == ByteBits(input) && r.count == 0 && r.pos == 0 && r.input == input
      ensures out == output && cursor == 0
      ensures fresh(r) && fresh(main) && fresh(dist) && fresh(lengths) && fresh(lenCodes)
      ensures fresh(main.sizes) && fresh(main.look) && fresh(main.tree) && fresh(dist.sizes) && fresh(dist.look) && fresh(dist.tree)
      ensures fresh(lengths.sizes) && fresh(lengths.look) && fresh(lengths.tree)
    {
      r := new BitReader(input);
      main := new HuffTable();
      dist := new HuffTable();
      lengths := new HuffTable();
      lenCodes := new nat[457](_ => 0);
      out, cursor := output, 0;
    }

    /** The output so far. */
    ghost predicate Written(h: seq<nat>)
      reads this, out
    {
      cursor == |h| <= out.Length && out[..cursor] == h
    }

    method PutByte(b: nat, ghost h: seq<nat>)
      requires Written(h) && cursor < out.Length
      modifies this`cursor, out
      ensures Written(h + [b])
    {
      out[cursor] := b;
      cursor := cursor + 1;
      assert out[..cursor] == out[..cursor - 1] + [b];
    }

    /** Literals up to the first other symbol: one at a time near the end of the input or of the room, else two. */
    method Literals(ghost m: seq<nat>, ghost d: seq<nat>, ghost h0: seq<nat>, ghost goal: seq<nat>, ghost tail: Word)
        returns (sym: nat, ghost h: seq<nat>)
      requires Separate() && main.Has(m) && r.Valid() && Written(h0)
      requires Leads(r.Rest(), m, d, h0, goal, tail) && |goal| <= out.Length
      modifies r, this`cursor, out
      ensures r.Valid() && Written(h) && sym >= END_OF_BLOCK && |r.Rest()| < |old(r.Rest())|
      ensures sym == END_OF_BLOCK ==> r.Rest() == tail && h == goal
      ensures sym > END_OF_BLOCK ==> MatchNext(r.Rest(), sym, m, d, h, goal, tail)
    {
      hide Leads, ReadSymbol, HuffTable.Has, Bytes, Pow2, Ahead, MatchNext;
      h := h0;
      while true
        invariant r.Valid() && Written(h) && Leads(r.Rest(), m, d, h, goal, tail) && main.Has(m)
        invariant |r.Rest()| <= |old(r.Rest())|
        decreases |r.Rest()|
      {
        NextSymbol(r.Rest(), m, d, h, goal, tail);
        if |r.input| - r.pos < 4 || out.Length - cursor < 2 {
          sym := main.Decode(r, m);
          if sym >= END_OF_BLOCK { return; }
          PutByte(sym, h);
          h := h + [sym];
        } else {
          sym := main.Decode(r, m);
          if sym / 256 % 2 == 1 { return; }
          NextSymbol(r.Rest(), m, d, h + [sym], goal, tail);
          var second := main.Decode(r, m);
          PutByte(sym, h);
          h := h + [sym];
          if second / 256 % 2 == 1 {
            sym := second;
            return;
          }
          PutByte(second, h);
          h := h + [second];
        }
      }
    }

    /** The length and distance behind a length symbol. */
    method MatchBehind(sym: nat, ghost d: seq<nat>) returns (len: nat, distance: nat)
      requires dist.Has(d) && r.Valid() && sym >= 257 && ReadMatch(r.Rest(), sym, d).Read?
      modifies r
      ensures r.Valid() && Read(Match(len, distance), r.Rest()) == old(ReadMatch(r.Rest(), sym, d))
    {
      hide ReadSymbol, ReadMatch, HuffTable.Has, Bytes, Pow2, Ahead;
      MatchParts(r.Rest(), sym, d);
      len := LENGTH_BASE[sym - 257];
      var extra := r.GetBits(LENGTH_EXTRA[sym - 257]);
      len := len + extra;
      var distSym := dist.Decode(r, d);
      distance := DIST_BASE[distSym];
      extra := r.GetBits(DIST_EXTRA[distSym]);
      distance := distance + extra;
    }

    /** Copies a match to the output. */
    method CopyToOutput(len: nat, distance: nat, ghost h: seq<nat>)
      requires Written(h) && 1 <= distance <= |h| && 3 <= len && |h| + len <= out.Length
      modifies this`cursor, out
      ensures Written(CopyBack(h, distance, len))
    {
      hide MatchCopy.Holds;
      PrefixHolds(out[..], h);
      ThreesWrittenIs(len);
      var right, pos, left := CopyMatch(out, cursor, distance, len, false, h);
      LinearOutput(out[..], CopyBack(h, distance, len));
      cursor := pos;
      assert out[..cursor] == out[..][..cursor];
    }

    /** The tokens of a block, up to its end. */
    method CodedBlock(ghost m: seq<nat>, ghost d: seq<nat>, ghost h0: seq<nat>, ghost goal: seq<nat>, ghost tail: Word)
      requires Separate() && main.Has(m) && dist.Has(d) && r.Valid() && Written(h0)
      requires Leads(r.Rest(), m, d, h0, goal, tail) && |goal| <= out.Length
      modifies r, this`cursor, out
      ensures r.Valid() && r.Rest() == tail && Written(goal)
    {
      hide Leads, ReadSymbol, ReadMatch, HuffTable.Has, Bytes, Pow2, Ahead;
      ghost var h := h0;
      while true
        invariant r.Valid() && Written(h) && Leads(r.Rest(), m, d, h, goal, tail) && main.Has(m) && dist.Has(d)
        decreases |r.Rest()|
      {
        var sym;
        sym, h := Literals(m, d, h, goal, tail);
        if sym == END_OF_BLOCK { break; }
        MatchIsLong(r.Rest(), sym, d);
        var len, distance := MatchBehind(sym, d);
        CopyToOutput(len, distance, h);
        h := CopyBack(h, distance, len);
      }
    }

    // ----- tables

    /** The lengths of the length codes, three bits each. */
    method ReadSmallSizes(n: nat, ghost sizes: seq<nat>, ghost rest: Word)
      requires Separate() && r.Valid() && n <= ITEM_CODES
      requires ReadSizes(r.Rest(), 0, n, Copies(0, ITEM_CODES)) == Read(sizes, rest)
      modifies r, lengths.sizes
      ensures r.Valid() && r.Rest() == rest && lengths.sizes[..ITEM_CODES] == sizes
    {
      hide DynamicHeader.GetBits, Bytes, Pow2, Ahead, ReadSizes;
      for i := 0 to ITEM_CODES
        invariant forall k :: 0 <= k < i ==> lengths.sizes[k] == 0
        modifies lengths.sizes
      {
        lengths.sizes[i] := 0;
      }
      assert lengths.sizes[..ITEM_CODES] == Copies(0, ITEM_CODES);
      SwizzleIsPermutation();
      for i := 0 to n
        invariant r.Valid() && ReadSizes(r.Rest(), i, n, lengths.sizes[..ITEM_CODES]) == Read(sizes, rest)
      {
        ghost var sofar := lengths.sizes[..ITEM_CODES];
        NextSize(r.Rest(), i, n, sofar);
        var size := r.GetBits(3);
        lengths.sizes[SWIZZLE[i]] := size;
        assert lengths.sizes[..ITEM_CODES] == sofar[SWIZZLE[i] := size];
      }
      NoMoreSizes(r.Rest(), n, lengths.sizes[..ITEM_CODES]);
    }

    /** The code lengths of both alphabets, run by run. */
    method ReadAllLengths(total: nat, ghost sizes: seq<nat>, ghost all: seq<nat>, ghost rest: Word)
      requires Separate() && lengths.Has(sizes) && r.Valid() && total <= 320 && Fits(sizes, MAX_BITS) && |sizes| == ITEM_CODES
      requires ReadLengths(r.Rest(), sizes, total, []) == Read(all, rest)
      modifies r, lenCodes
      ensures r.Valid() && r.Rest() == rest && lenCodes[..total] == all
    {
      hide DynamicHeader.GetBits, Bytes, Pow2, Ahead, ReadLengths, ReadSymbol, HuffTable.Has, UnpackItem, Fits;
      var counter := 0;
      assert lenCodes[..0] == [];
      while counter < total
        invariant counter <= total && r.Valid() && lengths.Has(sizes)
        invariant ReadLengths(r.Rest(), sizes, total, lenCodes[..counter]) == Read(all, rest)
      {
        ghost var sofar := lenCodes[..counter];
        NextLengths(r.Rest(), sizes, total, sofar);
        var code := lengths.Decode(r, sizes);
        counter := PutRun(code, counter, sizes, total, all, rest, sofar);
      }
      LengthsEnd(r.Rest(), sizes, total, lenCodes[..counter]);
    }

    method RepeatRun(counter: nat, run: nat, x: nat, ghost sofar: seq<nat>)
      requires counter + run <= lenCodes.Length && sofar == lenCodes[..counter]
      modifies lenCodes
      ensures lenCodes[..counter + run] == sofar + Copies(x, run)
    {
      for i := 0 to run
        invariant lenCodes[..counter + i] == sofar + Copies(x, i)
      {
        lenCodes[counter + i] := x;
        assert lenCodes[..counter + i + 1] == lenCodes[..counter + i] + [x];
      }
    }

    /** The lengths that one code stands for. */
    method PutRun(code: nat, counter: nat, ghost sizes: seq<nat>, ghost total: nat, ghost all: seq<nat>, ghost rest: Word,
                  ghost sofar: seq<nat>) returns (counter': nat)
      requires Separate() && r.Valid() && counter < total <= 320 && sofar == lenCodes[..counter]
      requires RunNext(r.Rest(), code, sizes, total, sofar, all, rest)
      modifies r, lenCodes
      ensures r.Valid() && counter < counter' <= total
      ensures ReadLengths(r.Rest(), sizes, total, lenCodes[..counter']) == Read(all, rest)
    {
      hide DynamicHeader.GetBits, Bytes, Pow2, Ahead, ReadLengths, Copies;
      ghost var before := r.Rest();
      if code < 16 {
        NoExtraBits(r.Rest());
        lenCodes[counter] := code;
        counter' := counter + 1;
        assert lenCodes[..counter'] == sofar + [code];
      } else {
        var extra := r.GetBits(ExtraBits(code));
        var run := extra + if code == 18 then 11 else 3;
        RepeatRun(counter, run, if code == 16 then lenCodes[counter - 1] else 0, sofar);
        counter' := counter + run;
      }
    }

    /** Moves lengths to where a table is built from them. */
    method CopySizes(from: nat, n: nat, table: HuffTable)
      requires table.Shape() && n <= MAX_SYMBOLS && from + n <= lenCodes.Length && lenCodes != table.sizes
      modifies table.sizes
      ensures table.sizes[..n] == lenCodes[from..from + n]
    {
      for i := 0 to n
        invariant table.sizes[..i] == lenCodes[from..from + i]
      {
        table.sizes[i] := lenCodes[from + i];
        assert table.sizes[..i + 1] == table.sizes[..i] + [lenCodes[from + i]];
      }
    }

    method ReadTableSizes() returns (nMain: nat, nDist: nat, nLengths: nat)
      requires r.Valid() && ReadHeader(r.Rest()).Some?
      modifies r
      ensures r.Valid() && ReadTables(r.Rest(), nMain, nDist, nLengths) == old(ReadHeader(r.Rest()))
      ensures nMain <= 288 && nDist <= 32 && nLengths <= 19
    {
      hide DynamicHeader.GetBits, Bytes, Pow2, Ahead, ReadTables, ReadHeader;
      HeaderParts(r.Rest());
      nMain := r.GetBits(5);
      nDist := r.GetBits(5);
      nLengths := r.GetBits(4);
      nMain, nDist, nLengths := nMain + 257, nDist + 1, nLengths + 4;
    }

    /** The tables of a dynamic block. */
    method DynamicTables(ghost h: Header)
      requires Separate() && r.Valid() && ReadHeader(r.Rest()) == Some(h) && Accepted(h.main) && Accepted(h.dist)
      modifies r, lenCodes, main, main.sizes, main.look, main.tree, dist, dist.sizes, dist.look, dist.tree
      modifies lengths, lengths.sizes, lengths.look, lengths.tree
      ensures r.Valid() && r.Rest() == h.rest && main.Has(h.main) && dist.Has(h.dist)
    {
      hide DynamicHeader.GetBits, Bytes, Pow2, Ahead, ReadLengths, ReadSizes, Accepted, Ready;
      var nMain, nDist, nLengths := ReadTableSizes();
      ghost var sizes, rest1, all := TableParts(r.Rest(), nMain, nDist, nLengths);
      ReadSmallSizes(nLengths, sizes, rest1);
      var ok := lengths.Build(ITEM_CODES);
      AcceptedFits(sizes);
      ReadAllLengths(nMain + nDist, sizes, all, h.rest);
      CopySizes(0, nMain, main);
      CopySizes(nMain, nDist, dist);
      assert main.sizes[..nMain] == h.main && dist.sizes[..nDist] == h.dist;
      ok := dist.Build(nDist);
      ok := main.Build(nMain);
    }

    /** The tables of a static block. */
    method StaticTables()
      requires Separate()
      modifies main, main.sizes, main.look, main.tree, dist, dist.sizes, dist.look, dist.tree
      ensures main.Has(FixedMain()) && dist.Has(FixedDist())
    {
      hide Accepted, Ready;
      FillSizes(main.sizes, 0, 144, 8);
      FillSizes(main.sizes, 144, 256, 9);
      FillSizes(main.sizes, 256, 280, 7);
      FillSizes(main.sizes, 280, 288, 8);
      FillSizes(dist.sizes, 0, 32, 5);
      assert main.sizes[..288] == FixedMain() && dist.sizes[..32] == FixedDist();
      FixedIsAccepted();
      var ok := dist.Build(32);
      ok := main.Build(288);
    }

    // ----- blocks

    /** Two bytes, the lower one first. */
    method TwoBytes() returns (v: nat)
      requires r.Valid() && |r.Rest()| >= 16
      modifies r
      ensures r.Valid() && Read(v, r.Rest()) == old(DynamicHeader.GetBits(r.Rest(), 16))
    {
      hide DynamicHeader.GetBits, Bytes, Pow2, Ahead;
      SixteenBits(r.Rest());
      var low := r.NextByte();
      var high := r.NextByte();
      v := low + 256 * high;
    }

    method StoredBlock(ghost h: seq<nat>, ghost bytes: seq<nat>, ghost rest: Word)
      requires Separate() && r.Valid() && Written(h) && ReadStored(Aligned(r.Rest())) == Read(bytes, rest)
      requires |h| + |bytes| <= out.Length
      modifies r, this`cursor, out
      ensures r.Valid() && r.Rest() == rest && Written(h + bytes)
    {
      hide DynamicHeader.GetBits, Bytes, Pow2, Ahead, Aligned, ReadStored, BytesOf;
      r.SkipToByte();
      StoredParts(r.Rest());
      var left := TwoBytes();
      var complement := TwoBytes();
      ghost var done: seq<nat> := [];
      assert h + done == h;
      while left > 0
        invariant left >= 0 && r.Valid() && Written(h + done) && |done| + left == |bytes| && 8 * left <= |r.Rest()|
        invariant bytes == done + BytesOf(r.Rest(), left) && rest == r.Rest()[8 * left..]
      {
        FirstOfBytes(r.Rest(), left);
        var c := r.NextByte();
        PutByte(c, h + done);
        assert h + done + [c] == h + (done + [c]);
        done := done + [c];
        left := left - 1;
      }
      NoBytesLeft(r.Rest());
      assert done == bytes;
    }

    /** A block of any kind. */
    method OneBlock(ghost h: seq<nat>, ghost block: Block, ghost longer: seq<nat>, ghost rest: Word) returns (final: bool)
      requires Separate() && r.Valid() && Written(h) && ReadBlock(r.Rest()).BlockRead?
      requires ReadBlock(r.Rest()).block == block && ReadBlock(r.Rest()).rest == rest
      requires ApplyBlock(h, block) == Some(longer) && |longer| <= out.Length
      modifies r, this`cursor, out, lenCodes, main, main.sizes, main.look, main.tree, dist, dist.sizes, dist.look, dist.tree
      modifies lengths, lengths.sizes, lengths.look, lengths.tree
      ensures r.Valid() && final == old(ReadBlock(r.Rest()).final) && r.Rest() == rest && Written(longer)
    {
      hide DynamicHeader.GetBits, Bytes, Pow2, Ahead, Aligned, ReadStored, ReadTokens, ReadHeader, HuffTable.Has, ReadBlock, FixedMain,
        FixedDist, Accepted;
      BlockParts(r.Rest());
      var head := r.GetBits(3);
      final := head % 2 == 1;
      var kind := head / 2;
      if kind == 0 {
        StoredBlock(h, block.bytes, rest);
      } else if kind == 1 {
        StaticTables();
        CodedBlock(FixedMain(), FixedDist(), h, longer, rest);
      } else {
        ghost var header := ReadHeader(r.Rest()).value;
        DynamicTables(header);
        CodedBlock(header.main, header.dist, h, longer, rest);
      }
    }

    /** All blocks. */
    method Run(ghost result: seq<nat>, ghost tail: Word)
      requires Separate() && r.Valid() && Written([])
      requires InflateFrom(r.Rest(), []) == Inflated(result, tail) && |result| <= out.Length
      modifies r, this`cursor, out, lenCodes, main, main.sizes, main.look, main.tree, dist, dist.sizes, dist.look, dist.tree
      modifies lengths, lengths.sizes, lengths.look, lengths.tree
      ensures r.Valid() && r.Rest() == tail && Written(result)
    {
      hide Bytes, Pow2, Ahead, ReadBlock, ApplyBlock, InflateFrom;
      ghost var h: seq<nat> := [];
      var final := false;
      while !final
        invariant r.Valid() && Written(h)
        invariant if final then h == result && r.Rest() == tail else InflateFrom(r.Rest(), h) == Inflated(result, tail)
        decreases !final, |r.Rest()|
      {
        NextBlock(r.Rest(), h);
        ghost var b := ReadBlock(r.Rest());
        ghost var longer := ApplyBlock(h, b.block).value;
        final := OneBlock(h, b.block, longer, b.rest);
        h := longer;
      }
    }

    // ----- zlib streams

    /** Four bytes, shifted in one by one behind a 1 that is shifted out. */
    method ReadChecksum() returns (z: nat)
      requires r.Valid() && |r.Rest()| >= 32
      modifies r
      ensures r.Valid() && z == BigEndian(BytesOf(old(r.Rest()), 4))
    {
      hide DynamicHeader.GetBits, Bytes, Pow2, Ahead, BytesOf, BigEndian;
      FourBytesOf(r.Rest());
      ghost var bytes := BytesOf(r.Rest(), 4);
      FourShifts(bytes);
      z := 1;
      var s := r.NextByte();
      z := z * 256 % TWO_TO_32 + s;
      s := r.NextByte();
      z := z * 256 % TWO_TO_32 + s;
      s := r.NextByte();
      z := z * 256 % TWO_TO_32 + s;
      s := r.NextByte();
      z := z * 256 % TWO_TO_32 + s;
    }

    /** A zlib stream: header, blocks, checksum of the output. */
    method RunZlib() returns (ok: bool)
      requires Separate() && r.Valid() && r.pos == r.count == cursor == 0 && WholeInput(r.input, out.Length)
      modifies r, this`cursor, out, lenCodes, main, main.sizes, main.look, main.tree, dist, dist.sizes, dist.look, dist.tree
      modifies lengths, lengths.sizes, lengths.look, lengths.tree
      ensures cursor <= out.Length && InflateZlib(r.input) == if ok then Some(out[..cursor]) else None
      ensures ok ==> (r.input[0] * 256 + r.input[1]) % 31 == 0 && r.input[1] / 32 % 2 == 0 && r.input[0] % 16 == 8
      ensures ok ==> forall cmf: nat, flg: nat :: (cmf * 256 + flg) % 31 == 0 && flg / 32 % 2 == 0 && cmf % 16 == 8 ==>
        InflateZlib([cmf, flg] + r.input[2..]) == Some(out[..cursor])
    {
      hide DynamicHeader.GetBits, Bytes, Pow2, Ahead, InflateFrom, GoodHeader, Checksum, BytesOf;
      ghost var input := r.input;
      AllAhead(r.buffer, input);
      TwoBytesIn(input);
      var cmf := r.NextByte();
      var flg := r.NextByte();
      ZlibFormat.HeaderTest(cmf, flg);
      if (cmf * 256 + flg) % 31 != 0 || flg / 32 % 2 != 0 || cmf % 16 != 8 { return false; }
      ghost var result := InflateFrom(ByteBits(input)[16..], []);
      assert out[..0] == [];
      Run(result.out, result.rest);
      r.SkipToByte();
      var expected := ReadChecksum();
      NoBytesYet();
      InflateBytes(ByteBits(input)[16..], []);
      var sum := SumOfOutput();
      ok := sum == expected;
      ZlibFormat.AnyHeader(input);
    }

    method SumOfOutput() returns (sum: nat)
      requires cursor <= out.Length && Bytes(out[..cursor])
      ensures sum == Checksum(1, out[..cursor])
    {
      hide Checksum;
      assert forall i :: 0 <= i < cursor ==> 0 <= out[..cursor][i] < 256;
      var data: seq<Byte> := out[..cursor];
      sum := ComputeAdler32(1, Some(data));
    }
  }
}
