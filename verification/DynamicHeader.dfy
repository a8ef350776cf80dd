/** The header of a dynamic block (section 3.2.7 of RFC 1951): written by the compressor, read back by the inflater. */
module DynamicHeader {
  import opened Sequences
  import opened Wrappers
  import opened Arithmetic
  import opened PrefixCodes
  import opened CanonicalCodes
  import opened BitBuffers
  import opened HuffmanTables
  import opened InflateTable
  import opened LzTokens
  import opened CodeLengths
  import opened CodeLengthRuns
  import opened HuffmanCost
  import opened LengthLimit
  import opened MinimumRedundancy
  import opened SymbolCounts
  import opened TableCost

  /** The order in which the lengths of the length codes are sent. */
  const SWIZZLE: seq<nat> := [16, 17, 18, 0, 8, 7, 9, 6, 10, 5, 11, 4, 12, 3, 13, 2, 14, 1, 15]

  /** Where each length code stands in that order. */
  const PLACE: seq<nat> := [3, 17, 15, 13, 11, 9, 7, 5, 4, 6, 8, 10, 12, 14, 16, 18, 0, 1, 2]

  lemma SwizzleIsPermutation()
    ensures |SWIZZLE| == ITEM_CODES && |PLACE| == ITEM_CODES
    ensures forall k :: 0 <= k < ITEM_CODES ==> SWIZZLE[k] < ITEM_CODES && PLACE[SWIZZLE[k]] == k
    ensures forall j :: 0 <= j < ITEM_CODES ==> PLACE[j] < ITEM_CODES && SWIZZLE[PLACE[j]] == j
  {
    forall k | 0 <= k < ITEM_CODES ensures SWIZZLE[k] < ITEM_CODES && PLACE[SWIZZLE[k]] == k { SwizzleAt(k); }
    forall j | 0 <= j < ITEM_CODES ensures PLACE[j] < ITEM_CODES && SWIZZLE[PLACE[j]] == j { PlaceAt(j); }
  }

  lemma SwizzleAt(k: nat)
    requires k < 19
    ensures SWIZZLE[k] < 19 && PLACE[SWIZZLE[k]] == k
  {
  }

  lemma PlaceAt(j: nat)
    requires j < 19
    ensures PLACE[j] < 19 && SWIZZLE[PLACE[j]] == j
  {
  }

  // ----- the bits of a header

  function ItemBits(item: Item, sizes: seq<nat>): (bits: Word)
    requires Used(sizes, item.code)
  {
    CodeWord(sizes, item.code) + LowBits(item.extra, ExtraBits(item.code))
  }

  ghost predicate AllUsed(items: seq<Item>, sizes: seq<nat>) {
    forall i :: 0 <= i < |items| ==> Used(sizes, items[i].code)
  }

  function ItemsBits(items: seq<Item>, sizes: seq<nat>): (bits: Word)
    requires AllUsed(items, sizes)
  {
    if items == [] then [] else ItemBits(items[0], sizes) + ItemsBits(items[1..], sizes)
  }

  lemma {:induction false} ItemsBitsSnoc(items: seq<Item>, item: Item, sizes: seq<nat>)
    requires AllUsed(items, sizes) && Used(sizes, item.code)
    ensures ItemsBits(items + [item], sizes) == ItemsBits(items, sizes) + ItemBits(item, sizes)
  {
    if items == [] {
      assert [item][1..] == [];
    } else {
      ItemsBitsSnoc(items[1..], item, sizes);
      assert (items + [item])[1..] == items[1..] + [item];
    }
  }

  /** The first k lengths of the length codes, in sending order. */
  function SizesBits(sizes: seq<nat>, k: nat): (bits: Word)
    requires |sizes| == ITEM_CODES && k <= ITEM_CODES
  {
    if k == 0 then [] else SizesBits(sizes, k - 1) + LowBits(sizes[SWIZZLE[k - 1]], 3)
  }

  function HeaderBits(main: nat, dist: nat, lengths: nat, items: seq<Item>, sizes: seq<nat>): (bits: Word)
    requires 257 <= main && 1 <= dist && 4 <= lengths <= ITEM_CODES == |sizes| && AllUsed(items, sizes)
  {
    LowBits(main - 257, 5) + (LowBits(dist - 1, 5) + (LowBits(lengths - 4, 4)
      + (SizesBits(sizes, lengths) + ItemsBits(items, sizes))))
  }

  // ----- reading a header, bit by bit

  datatype Header = Header(main: seq<nat>, dist: seq<nat>, rest: Word)

  datatype Read<T> = Fail | Read(value: T, rest: Word)

  function GetBits(bits: Word, n: nat): Read<nat> {
    if |bits| < n then Fail else Read(Reversed(bits[..n]), bits[n..])
  }

  /** Puts k more lengths where they belong. */
  function ReadSizes(bits: Word, from: nat, end: nat, sizes: seq<nat>): Read<seq<nat>>
    requires |sizes| == ITEM_CODES && from <= end <= ITEM_CODES
    decreases end as int - from
  {
    if from == end then Read(sizes, bits)
    else
      match GetBits(bits, 3)
      case Fail => Fail
      case Read(size, rest) => ReadSizes(rest, from + 1, end, sizes[SWIZZLE[from] := size])
  }

  /** Reads lengths until there are `total`. */
  function ReadLengths(bits: Word, sizes: seq<nat>, total: nat, sofar: seq<nat>): (r: Read<seq<nat>>)
    ensures r.Read? ==> |r.value| == total
    decreases total - |sofar|
  {
    if |sofar| >= total then if |sofar| == total then Read(sofar, bits) else Fail
    else
      match Decode(sizes, MAX_BITS, bits)
      case NoSymbol => Fail
      case Symbol(code, len) =>
        if len > |bits| then Fail
        else
          match GetBits(bits[len..], ExtraBits(code))
          case Fail => Fail
          case Read(extra, rest) =>
            match UnpackItem(sofar, Item(code, extra))
            case None => Fail
            case Some(more) => if |more| > |sofar| then ReadLengths(rest, sizes, total, more) else Fail
  }

  /** The three counts, each less its minimum. */
  datatype Counts3 = Counts3(main: nat, dist: nat, lengths: nat)

  function ReadCounts(bits: Word): Read<Counts3> {
    match GetBits(bits, 5)
    case Fail => Fail
    case Read(main, bits1) =>
      match GetBits(bits1, 5)
      case Fail => Fail
      case Read(dist, bits2) =>
        match GetBits(bits2, 4)
        case Fail => Fail
        case Read(lengths, bits3) => Read(Counts3(main, dist, lengths), bits3)
  }

  ghost function ReadTables(bits: Word, main: nat, dist: nat, lengths: nat): Option<Header> {
    if lengths > ITEM_CODES then None
    else
      match ReadSizes(bits, 0, lengths, Copies(0, ITEM_CODES))
      case Fail => None
      case Read(sizes, bits1) =>
        if !Accepted(sizes) then None
        else
          match ReadLengths(bits1, sizes, main + dist, [])
          case Fail => None
          case Read(all, rest) => Some(Header(all[..main], all[main..], rest))
  }

  ghost function ReadHeader(bits: Word): Option<Header> {
    match ReadCounts(bits)
    case Fail => None
    case Read(c, rest) => ReadTables(rest, c.main + 257, c.dist + 1, c.lengths + 4)
  }

  // ----- reading back what was written

  lemma GetBitsOf(v: nat, n: nat, rest: Word)
    requires v < Pow2(n)
    ensures GetBits(LowBits(v, n) + rest, n) == Read(v, rest)
  {
    ReversedOfLowBits(v, n);
    FrontAndRest(LowBits(v, n), rest);
  }

  /** The lengths from position k on in sending order, first to last. */
  function SizesFrom(sizes: seq<nat>, k: nat, end: nat): (bits: Word)
    requires |sizes| == ITEM_CODES && k <= end <= ITEM_CODES
    decreases end as int - k
  {
    if k == end then [] else LowBits(sizes[SWIZZLE[k]], 3) + SizesFrom(sizes, k + 1, end)
  }

  lemma {:induction false} SizesFromSplit(sizes: seq<nat>, k: nat, end: nat)
    requires |sizes| == ITEM_CODES && k <= end <= ITEM_CODES
    ensures SizesBits(sizes, end) == SizesBits(sizes, k) + SizesFrom(sizes, k, end)
    decreases end as int - k
  {
    if k < end {
      SizesFromSplit(sizes, k + 1, end);
      JoinThree(SizesBits(sizes, k), LowBits(sizes[SWIZZLE[k]], 3), SizesFrom(sizes, k + 1, end));
    } else {
      assert SizesBits(sizes, end) + [] == SizesBits(sizes, end);
    }
  }

  /** Lengths sent so far are in place, the others are still 0. */
  ghost predicate Placed(read: seq<nat>, sizes: seq<nat>, k: nat) {
    |read| == |sizes| == ITEM_CODES &&
    forall j :: 0 <= j < ITEM_CODES ==> read[j] == if PLACE[j] < k then sizes[j] else 0
  }

  lemma {:induction false} ReadSizesOf(sizes: seq<nat>, k: nat, end: nat, read: seq<nat>, rest: Word)
    requires Placed(read, sizes, k) && k <= end <= ITEM_CODES && forall j :: 0 <= j < ITEM_CODES ==> sizes[j] < 8
    ensures var r := ReadSizes(SizesFrom(sizes, k, end) + rest, k, end, read);
      r.Read? && r.rest == rest && Placed(r.value, sizes, end)
    decreases end as int - k
  {
    if k < end {
      SwizzleIsPermutation();
      var size := sizes[SWIZZLE[k]];
      assert Pow2(3) == 8;
      GetBitsOf(size, 3, SizesFrom(sizes, k + 1, end) + rest);
      JoinThree(LowBits(size, 3), SizesFrom(sizes, k + 1, end), rest);
      PlaceOne(read, sizes, k);
      hide LowBits, GetBits, Pow2;
      ReadSizesOf(sizes, k + 1, end, read[SWIZZLE[k] := size], rest);
    } else {
      assert SizesFrom(sizes, k, end) + rest == rest;
    }
  }

  lemma PlaceOne(read: seq<nat>, sizes: seq<nat>, k: nat)
    requires Placed(read, sizes, k) && k < ITEM_CODES
    ensures Placed(read[SWIZZLE[k] := sizes[SWIZZLE[k]]], sizes, k + 1)
  {
    SwizzleIsPermutation();
  }

  /** Reading the items from position j on, after those before it. */
  lemma {:induction false} ReadLengthsOf(items: seq<Item>, j: nat, sizes: seq<nat>, lengths: seq<nat>, rest: Word)
    requires AllUsed(items, sizes) && AllGood(items) && Fits(sizes, MAX_BITS) && Unpack(items) == Some(lengths)
    requires j <= |items|
    ensures Unpack(items[..j]).Some? && AllUsed(items[j..], sizes)
    ensures ReadLengths(ItemsBits(items[j..], sizes) + rest, sizes, |lengths|, Unpack(items[..j]).value) == Read(lengths, rest)
    decreases |items| - j
  {
    hide Unpack, LowBits, CodeWord, Decode, Fits, UnpackItem, GetBits;
    UnpackPrefix(items, j);
    var sofar := Unpack(items[..j]).value;
    if j < |items| {
      var item, tail := items[j], ItemsBits(items[j + 1..], sizes) + rest;
      ReadLengthsOf(items, j + 1, sizes, lengths, rest);
      assert items[..j + 1] == items[..j] + [item];
      UnpackSnoc(items[..j], item);
      UnpackPrefix(items, j + 1);
      UnpackPrefix(items[..j + 1], j);
      assert items[..j + 1][..j] == items[..j];
      ItemsBitsHead(items, j, sizes, rest);
      ReadItem(item, sizes, tail, sofar);
    } else {
      assert items[..j] == items && items[j..] == [];
      assert ItemsBits([], sizes) + rest == rest;
    }
  }

  lemma ItemsBitsHead(items: seq<Item>, j: nat, sizes: seq<nat>, rest: Word)
    requires AllUsed(items, sizes) && j < |items|
    ensures AllUsed(items[j..], sizes) && AllUsed(items[j + 1..], sizes)
    ensures ItemsBits(items[j..], sizes) + rest
      == CodeWord(sizes, items[j].code) + (LowBits(items[j].extra, ExtraBits(items[j].code)) + (ItemsBits(items[j + 1..], sizes) + rest))
  {
    hide LowBits, CodeWord;
    assert items[j..][0] == items[j] && items[j..][1..] == items[j + 1..];
    assert Used(sizes, items[j].code);
    var a, b, c := CodeWord(sizes, items[j].code), LowBits(items[j].extra, ExtraBits(items[j].code)), ItemsBits(items[j + 1..], sizes);
    JoinFour(a, b, c, rest);
  }

  lemma JoinFour(a: Word, b: Word, c: Word, d: Word)
    ensures ((a + b) + c) + d == a + (b + (c + d))
  {
  }

  lemma ReadItem(item: Item, sizes: seq<nat>, tail: Word, sofar: seq<nat>)
    requires GoodItem(item) && Used(sizes, item.code) && Fits(sizes, MAX_BITS)
    ensures var bits := CodeWord(sizes, item.code) + (LowBits(item.extra, ExtraBits(item.code)) + tail);
      && Decode(sizes, MAX_BITS, bits) == Symbol(item.code, sizes[item.code])
      && sizes[item.code] <= |bits|
      && GetBits(bits[sizes[item.code]..], ExtraBits(item.code)) == Read(item.extra, tail)
  {
    hide LowBits, CodeWord, Decode, Fits, GetBits;
    DecodeInvertsCode(sizes, MAX_BITS, item.code, LowBits(item.extra, ExtraBits(item.code)) + tail);
    FrontAndRest(CodeWord(sizes, item.code), LowBits(item.extra, ExtraBits(item.code)) + tail);
    assert Pow2(0) == 1 && Pow2(2) == 4 && Pow2(3) == 8 && Pow2(7) == 128;
    GetBitsOf(item.extra, ExtraBits(item.code), tail);
  }

  /** Lengths after the last that is sent are 0. */
  ghost predicate EnoughSent(sizes: seq<nat>, lengths: nat) {
    && 4 <= lengths <= ITEM_CODES == |sizes|
    && forall k :: lengths <= k < ITEM_CODES ==> sizes[SWIZZLE[k]] == 0
  }

  /** Of trailing zeros only those are sent that must be. */
  ghost predicate NoneTooMany(sizes: seq<nat>, lengths: nat) {
    4 <= lengths <= ITEM_CODES == |sizes| == |SWIZZLE| && SWIZZLE[lengths - 1] < ITEM_CODES &&
    (lengths > 4 ==> sizes[SWIZZLE[lengths - 1]] != 0)
  }

  /** The inflater reads from the header just the lengths the compressor packed into it. */
  lemma HeaderRoundTrip(main: seq<nat>, dist: seq<nat>, lengths: nat, items: seq<Item>, sizes: seq<nat>, rest: Word)
    requires 257 <= |main| <= 288 && 1 <= |dist| <= 32
    requires EnoughSent(sizes, lengths) && Accepted(sizes) && forall j :: 0 <= j < ITEM_CODES ==> sizes[j] < 8
    requires AllUsed(items, sizes) && AllGood(items) && Unpack(items) == Some(main + dist)
    ensures ReadHeader(HeaderBits(|main|, |dist|, lengths, items, sizes) + rest) == Some(Header(main, dist, rest))
  {
    hide LowBits, GetBits, Accepted, ReadSizes, ReadLengths, ItemsBits, SizesBits, Placed, Unpack, Pow2, Fits;
    var tail := SizesBits(sizes, lengths) + ItemsBits(items, sizes);
    ReadCountsOf(|main| - 257, |dist| - 1, lengths - 4, tail + rest);
    JoinHeader(LowBits(|main| - 257, 5), LowBits(|dist| - 1, 5), LowBits(lengths - 4, 4), tail, rest);
    JoinThree(SizesBits(sizes, lengths), ItemsBits(items, sizes), rest);
    ReadAllSizes(sizes, lengths, ItemsBits(items, sizes) + rest);
    AcceptedFits(sizes);
    ReadAllLengths(items, sizes, main + dist, rest);
    FrontAndRest(main, dist);
  }

  lemma AcceptedFits(sizes: seq<nat>)
    requires Accepted(sizes)
    ensures Fits(sizes, MAX_BITS)
  {
  }

  lemma JoinHeader(a: Word, b: Word, c: Word, d: Word, rest: Word)
    ensures (a + (b + (c + d))) + rest == a + (b + (c + (d + rest)))
  {
  }

  lemma ReadCountsOf(main: nat, dist: nat, lengths: nat, tail: Word)
    requires main < 32 && dist < 32 && lengths < 16
    ensures ReadCounts(LowBits(main, 5) + (LowBits(dist, 5) + (LowBits(lengths, 4) + tail)))
      == Read(Counts3(main, dist, lengths), tail)
  {
    hide LowBits, GetBits;
    assert Pow2(5) == 32 && Pow2(4) == 16;
    GetBitsOf(main, 5, LowBits(dist, 5) + (LowBits(lengths, 4) + tail));
    GetBitsOf(dist, 5, LowBits(lengths, 4) + tail);
    GetBitsOf(lengths, 4, tail);
  }

  lemma ReadAllSizes(sizes: seq<nat>, lengths: nat, tail: Word)
    requires EnoughSent(sizes, lengths) && forall j :: 0 <= j < ITEM_CODES ==> sizes[j] < 8
    ensures ReadSizes(SizesBits(sizes, lengths) + tail, 0, lengths, Copies(0, ITEM_CODES)) == Read(sizes, tail)
  {
    hide LowBits, GetBits;
    SwizzleIsPermutation();
    SizesFromSplit(sizes, 0, lengths);
    assert SizesBits(sizes, 0) == [] && SizesBits(sizes, lengths) == SizesFrom(sizes, 0, lengths);
    ReadSizesOf(sizes, 0, lengths, Copies(0, ITEM_CODES), tail);
    var read := ReadSizes(SizesBits(sizes, lengths) + tail, 0, lengths, Copies(0, ITEM_CODES)).value;
    forall j | 0 <= j < ITEM_CODES ensures read[j] == sizes[j] {
      assert SWIZZLE[PLACE[j]] == j;
    }
    assert read == sizes;
  }

  lemma ReadAllLengths(items: seq<Item>, sizes: seq<nat>, lengths: seq<nat>, rest: Word)
    requires AllUsed(items, sizes) && AllGood(items) && Fits(sizes, MAX_BITS) && Unpack(items) == Some(lengths)
    ensures ReadLengths(ItemsBits(items, sizes) + rest, sizes, |lengths|, []) == Read(lengths, rest)
  {
    hide LowBits, CodeWord, ReadLengths, Fits;
    ReadLengthsOf(items, 0, sizes, lengths, rest);
    assert items[0..] == items && items[..0] == [];
  }

  // ----- lengths that may be sent: trailing zeros do not matter, and the inflater accepts them

  ghost predicate ZeroFrom(sizes: seq<nat>, n: nat) {
    n <= |sizes| && forall k :: n <= k < |sizes| ==> sizes[k] == 0
  }

  lemma {:induction false} TrimCount(sizes: seq<nat>, n: nat, len: nat)
    requires ZeroFrom(sizes, n) && len >= 1
    ensures CountOf(sizes[..n], len) == CountOf(sizes, len)
  {
    if n < |sizes| {
      TrimCount(sizes[..|sizes| - 1], n, len);
      assert sizes[..|sizes| - 1][..n] == sizes[..n];
    } else {
      assert sizes[..n] == sizes;
    }
  }

  lemma {:induction false} TrimFirst(sizes: seq<nat>, n: nat, len: nat)
    requires ZeroFrom(sizes, n)
    ensures First(sizes[..n], len) == First(sizes, len)
  {
    if len > 1 {
      TrimFirst(sizes, n, len - 1);
      TrimCount(sizes, n, len - 1);
    }
  }

  /** A trimmed table gives every symbol the same code word. */
  lemma TrimKeepsCodes(sizes: seq<nat>, n: nat, sym: nat)
    requires ZeroFrom(sizes, n) && Used(sizes, sym)
    ensures Used(sizes[..n], sym) && CodeWord(sizes[..n], sym) == CodeWord(sizes, sym)
  {
    assert sym < n;
    TrimFirst(sizes, n, sizes[sym]);
    assert sizes[..n][..sym] == sizes[..sym];
  }

  lemma TrimAccepted(sizes: seq<nat>, n: nat)
    requires ZeroFrom(sizes, n) && Accepted(sizes)
    ensures Accepted(sizes[..n])
  {
    TrimFirst(sizes, n, MAX_BITS);
    TrimCount(sizes, n, MAX_BITS);
    if Lone(sizes) {
      forall i, j | Used(sizes[..n], i) && Used(sizes[..n], j) ensures i == j {
        assert Used(sizes, i) && Used(sizes, j);
      }
    }
  }

  lemma NoneLonger(sizes: seq<nat>, limit: nat, more: nat)
    requires forall i :: 0 <= i < |sizes| ==> sizes[i] <= limit
    ensures forall l :: limit < l <= limit + more ==> CountOf(sizes, l) == 0
  {
    forall l | limit < l <= limit + more ensures CountOf(sizes, l) == 0 { CountNone(sizes, l); }
  }

  /** The inflater accepts whatever lengths the table builder gives out. */
  lemma BuiltIsAccepted(count: seq<nat>, sizes: seq<nat>, limit: nat)
    requires GoodSizes(count, sizes, limit) && limit <= MAX_BITS && |sizes| <= MAX_SYMBOLS
    ensures Accepted(sizes)
  {
    NoneLonger(sizes, limit, MAX_BITS - limit);
    PastDoubles(sizes, limit, MAX_BITS - limit);
    Pow2Add(limit, MAX_BITS - limit);
    ScaleBound(Past(sizes, limit), Pow2(limit), Pow2(MAX_BITS - limit));
    if !Lone(sizes) {
      var i, j :| Used(sizes, i) && Used(sizes, j) && i != j;
      OrderedPair(count, i, j);
    }
  }

  lemma ScaleBound(a: nat, b: nat, unit: nat)
    ensures a <= b ==> a * unit <= b * unit
    ensures a == b ==> a * unit == b * unit
  {
  }

  lemma OrderedPair(count: seq<nat>, i: nat, j: nat)
    requires i < |count| && j < |count| && i != j && count[i] > 0 && count[j] > 0
    ensures exists a, b :: 0 <= a < b < |count| && count[a] > 0 && count[b] > 0
  {
    if i < j { assert count[i] > 0 && count[j] > 0; } else { assert count[j] > 0 && count[i] > 0; }
  }

  // ----- writing a header

  /** The first n lengths, dropping trailing zeros down to the least number that may be sent. */
  method Trim(sizes: array<nat>, most: nat, least: nat) returns (n: nat)
    requires least <= most <= sizes.Length && ZeroFrom(sizes[..], most)
    ensures least <= n <= most && ZeroFrom(sizes[..], n) && (n > least ==> sizes[n - 1] != 0)
  {
    n := most;
    while n > least
      invariant least <= n <= most && ZeroFrom(sizes[..], n)
    {
      if sizes[n - 1] != 0 { break; }
      n := n - 1;
    }
  }

  /** How many lengths of length codes are sent, in sending order. */
  method CountSent(sizes: array<nat>) returns (lengths: nat)
    requires sizes.Length == ITEM_CODES
    ensures EnoughSent(sizes[..], lengths) && NoneTooMany(sizes[..], lengths)
  {
    SwizzleIsPermutation();
    var last: int := 18;
    while last >= 0
      invariant -1 <= last <= 18
      invariant forall k :: last < k < ITEM_CODES ==> sizes[SWIZZLE[k]] == 0
    {
      if sizes[SWIZZLE[last]] != 0 { break; }
      last := last - 1;
    }
    lengths := if last + 1 < 4 then 4 else last + 1;
  }

  method WriteSizes(w: BitWriter, sizes: array<nat>, lengths: nat)
    requires w.Valid() && sizes.Length == ITEM_CODES && lengths <= ITEM_CODES
    requires forall j :: 0 <= j < ITEM_CODES ==> sizes[j] < 8
    modifies w
    ensures w.Valid() && w.Bits() == old(w.Bits()) + SizesBits(sizes[..], lengths)
  {
    hide LowBits, BitsOfBytes;
    SwizzleIsPermutation();
    assert Pow2(3) == 8;
    ghost var s, before := sizes[..], w.Bits();
    assert before + [] == before;
    for i := 0 to lengths
      invariant w.Valid() && w.Bits() == before + SizesBits(s, i)
    {
      w.PutBits(sizes[SWIZZLE[i]], 3);
      JoinThree(before, SizesBits(s, i), LowBits(s[SWIZZLE[i]], 3));
    }
  }

  lemma NoItems(items: seq<Item>, sizes: seq<nat>, before: Word)
    ensures AllUsed(items[..0], sizes) && before + ItemsBits(items[..0], sizes) == before && Flat(items[..0]) == []
  {
    assert items[..0] == [];
  }

  lemma ItemAt(items: seq<Item>, j: nat, flat: seq<nat>, p: nat)
    requires flat == Flat(items) && j <= |items| && p == |Flat(items[..j])| < |flat|
    ensures j < |items| && flat[p] == items[j].code
    ensures items[j].code >= 16 ==> p + 1 < |flat| && flat[p + 1] == items[j].extra
    ensures |Flat(items[..j + 1])| == p + (if items[j].code >= 16 then 2 else 1) <= |flat|
  {
    hide Flat;
    assert items[..|items|] == items;
    FlatAt(items, j);
    var bytes := flat[p..p + |ItemBytes(items[j])|];
    assert bytes[0] == flat[p] && (|bytes| > 1 ==> bytes[1] == flat[p + 1]);
  }

  lemma CodeBits(codes: seq<nat>, sizes: seq<nat>, code: nat)
    requires Coded(codes, sizes, |sizes|) && Used(sizes, code)
    ensures codes[code] < Pow2(sizes[code]) && LowBits(codes[code], sizes[code]) == CodeWord(sizes, code)
  {
    LowBitsOfReversed(CodeWord(sizes, code));
  }

  lemma ExtraFits(item: Item)
    requires GoodItem(item)
    ensures item.extra < Pow2(ExtraBits(item.code))
    ensures item.code < 16 ==> LowBits(item.extra, ExtraBits(item.code)) == []
  {
    assert Pow2(0) == 1 && Pow2(2) == 4 && Pow2(3) == 8 && Pow2(7) == 128;
  }

  lemma ItemWritten(items: seq<Item>, j: nat, sizes: seq<nat>, before: Word, bits: Word)
    requires j < |items| && AllUsed(items, sizes)
    requires bits == before + ItemsBits(items[..j], sizes) + CodeWord(sizes, items[j].code)
      + LowBits(items[j].extra, ExtraBits(items[j].code))
    ensures AllUsed(items[..j + 1], sizes) && bits == before + ItemsBits(items[..j + 1], sizes)
  {
    hide CodeWord, LowBits;
    assert items[..j + 1] == items[..j] + [items[j]];
    ItemsBitsSnoc(items[..j], items[j], sizes);
    RegroupFour(before, ItemsBits(items[..j], sizes), CodeWord(sizes, items[j].code),
                LowBits(items[j].extra, ExtraBits(items[j].code)));
  }

  lemma RegroupFour(a: Word, b: Word, c: Word, d: Word)
    ensures a + b + c + d == a + (b + (c + d))
  {
  }

  lemma AllWritten(items: seq<Item>, j: nat, flat: seq<nat>)
    requires flat == Flat(items) && j <= |items| && |Flat(items[..j])| >= |flat|
    ensures items[..j] == items
  {
    if j < |items| {
      FlatAt(items, j);
      SomeItemBytes(items[j]);
    }
  }

  lemma SomeItemBytes(item: Item)
    ensures |ItemBytes(item)| >= 1
  {
  }

  /** Sends the packed lengths by their codes. */
  method WriteItems(w: BitWriter, packed: array<nat>, n: nat, sizes: array<nat>, codes: array<nat>, ghost items: seq<Item>)
    requires w.Valid() && n <= packed.Length && packed[..n] == Flat(items) && AllGood(items)
    requires sizes.Length == ITEM_CODES == codes.Length && AllUsed(items, sizes[..]) && Coded(codes[..], sizes[..], ITEM_CODES)
    requires forall j :: 0 <= j < ITEM_CODES ==> sizes[j] < 8
    modifies w
    ensures w.Valid() && w.Bits() == old(w.Bits()) + ItemsBits(items, sizes[..])
  {
    hide LowBits, BitsOfBytes, Flat, ItemsBits, CodeWord, Coded, Pow2;
    ghost var s, before, flat := sizes[..], w.Bits(), packed[..n];
    ghost var j: nat := 0;
    var p := 0;
    NoItems(items, s, before);
    while p < n
      invariant j <= |items| && p == |Flat(items[..j])| && w.Valid() && p <= n
      invariant AllUsed(items[..j], s) && w.Bits() == before + ItemsBits(items[..j], s)
      decreases n - p
    {
      ItemAt(items, j, flat, p);
      ghost var item := items[j];
      CodeBits(codes[..], s, item.code);
      ExtraFits(item);
      var code := packed[p];
      p := p + 1;
      w.PutBits(codes[code], sizes[code]);
      NothingPut(w.Bits(), LowBits(item.extra, ExtraBits(item.code)));
      if code >= 16 {
        w.PutBits(packed[p], ExtraBits(code));
        p := p + 1;
      }
      ItemWritten(items, j, s, before, w.Bits());
      j := j + 1;
    }
    AllWritten(items, j, flat);
  }

  lemma NothingPut(bits: Word, more: Word)
    ensures more == [] ==> bits + more == bits
  {
  }

  /** What is sent of an alphabet's lengths: all but trailing zeros. */
  ghost predicate Sent(sizes: seq<nat>, sent: seq<nat>) {
    |sent| <= |sizes| && sent == sizes[..|sent|] && ZeroFrom(sizes, |sent|) && Accepted(sent)
  }

  lemma SentPart(count: seq<nat>, sizes: seq<nat>, n: nat)
    requires GoodSizes(count, sizes, MAX_BITS) && |sizes| <= MAX_SYMBOLS && ZeroFrom(sizes, n)
    ensures Sent(sizes, sizes[..n]) && forall k :: 0 <= k < n ==> sizes[k] < 16
  {
    BuiltIsAccepted(count, sizes, MAX_BITS);
    TrimAccepted(sizes, n);
  }

  lemma ItemCountsSmall(counts: seq<nat>, items: seq<Item>)
    requires ItemTally(counts, items) && |items| <= MAX_SIZES
    ensures Sum(counts) < 65536
  {
    var bound: seq<nat> := Copies(MAX_SIZES, ITEM_CODES);
    SumConstant(bound, MAX_SIZES);
    SumPointwise(counts, bound);
  }

  lemma ItemsAreUsed(counts: seq<nat>, items: seq<Item>, sizes: seq<nat>)
    requires ItemTally(counts, items) && AllGood(items) && GoodSizes(counts, sizes, 7)
    ensures AllUsed(items, sizes) && Accepted(sizes) && |sizes| == ITEM_CODES
    ensures forall j :: 0 <= j < ITEM_CODES ==> sizes[j] < 8
  {
    BuiltIsAccepted(counts, sizes, 7);
    forall i | 0 <= i < |items| ensures Used(sizes, items[i].code) {
      ItemIsCounted(items, i);
      assert GoodItem(items[i]);
    }
  }

  /** Packs the lengths and builds the code for the packed form. */
  method PackLengths(all: seq<nat>) returns (packer: Packer, sizes: array<nat>, codes: array<nat>)
    requires Sizes(all)
    ensures fresh(packer) && fresh(packer.packed) && fresh(sizes) && fresh(codes)
    ensures packer.Holding() && AllGood(packer.items) && Unpack(packer.items) == Some(all) && Tight(packer.items)
    ensures sizes.Length == ITEM_CODES == codes.Length && Coded(codes[..], sizes[..], ITEM_CODES)
    ensures AllUsed(packer.items, sizes[..]) && Accepted(sizes[..])
    ensures forall j :: 0 <= j < ITEM_CODES ==> sizes[j] < 8
  {
    hide Tight, AllUsed, Accepted, Coded, GoodSizes, Unpack, AllGood, Sum, Flat, ItemTally, Ordered, MergedLengths, MeasuredSizes,
      LimitedSizes;
    packer := new Packer();
    packer.Pack(all);
    sizes, codes := new nat[ITEM_CODES](_ => 0), new nat[ITEM_CODES](_ => 0);
    PackedShape(packer);
    ghost var p, c := packer.packed[..], packer.counts[..];
    ItemCountsSmall(c, packer.items);
    assert Pow2(7) == 128;
    var order, lens := OptimizeTable(packer.counts, sizes, codes, ITEM_CODES, 7);
    assert packer.packed[..] == p && packer.counts[..] == c;
    ItemsAreUsed(c, packer.items, sizes[..]);
    assert sizes[..ITEM_CODES] == sizes[..];
  }

  lemma PackedShape(packer: Packer)
    requires packer.Holding()
    ensures |packer.items| <= MAX_SIZES && ItemTally(packer.counts[..], packer.items) && packer.counts.Length == ITEM_CODES
    ensures packer.packed[..packer.n] == Flat(packer.items) && packer.n <= packer.packed.Length
  {
  }

  /** Writes counts, the lengths of the length codes and the packed lengths. */
  method WriteHeader(w: BitWriter, main: nat, dist: nat, packer: Packer, sizes: array<nat>, codes: array<nat>)
      returns (lengths: nat)
    requires w.Valid() && 257 <= main <= 288 && 1 <= dist <= 32 && packer.Holding() && AllGood(packer.items)
    requires sizes.Length == ITEM_CODES == codes.Length && Coded(codes[..], sizes[..], ITEM_CODES)
    requires AllUsed(packer.items, sizes[..]) && forall j :: 0 <= j < ITEM_CODES ==> sizes[j] < 8
    modifies w
    ensures w.Valid() && EnoughSent(sizes[..], lengths) && NoneTooMany(sizes[..], lengths)
    ensures w.Bits() == old(w.Bits()) + HeaderBits(main, dist, lengths, packer.items, sizes[..])
  {
    hide AllUsed, Coded, AllGood, Flat, LowBits, ItemsBits, SizesBits, BitsOfBytes;
    PackedShape(packer);
    assert Pow2(5) == 32 && Pow2(4) == 16;
    ghost var before := w.Bits();
    w.PutBits(main - 257, 5);
    w.PutBits(dist - 1, 5);
    lengths := CountSent(sizes);
    w.PutBits(lengths - 4, 4);
    WriteSizes(w, sizes, lengths);
    WriteItems(w, packer.packed, packer.n, sizes, codes, packer.items);
    RegroupSix(before, LowBits(main - 257, 5), LowBits(dist - 1, 5), LowBits(lengths - 4, 4), SizesBits(sizes[..], lengths),
               ItemsBits(packer.items, sizes[..]));
  }

  lemma RegroupSix(a: Word, b: Word, c: Word, d: Word, e: Word, f: Word)
    ensures a + b + c + d + e + f == a + (b + (c + (d + (e + f))))
  {
  }

  /** No header is longer. */
  const HEADER_BITS: nat := 14 + 3 * ITEM_CODES + 14 * MAX_SIZES

  lemma {:induction false} ItemsBitsLength(items: seq<Item>, sizes: seq<nat>)
    requires AllUsed(items, sizes) && forall j :: 0 <= j < |sizes| ==> sizes[j] < 8
    ensures |ItemsBits(items, sizes)| <= 14 * |items|
  {
    hide CodeWord, LowBits;
    if items != [] {
      assert Used(sizes, items[0].code);
      ItemsBitsLength(items[1..], sizes);
    }
  }

  lemma {:induction false} SizesBitsLength(sizes: seq<nat>, k: nat)
    requires |sizes| == ITEM_CODES && k <= ITEM_CODES
    ensures |SizesBits(sizes, k)| == 3 * k
  {
    hide LowBits;
    if k > 0 { SizesBitsLength(sizes, k - 1); }
  }

  lemma HeaderBitsLength(main: nat, dist: nat, lengths: nat, items: seq<Item>, sizes: seq<nat>)
    requires 257 <= main && 1 <= dist && 4 <= lengths <= ITEM_CODES == |sizes| && AllUsed(items, sizes)
    requires |items| <= MAX_SIZES && forall j :: 0 <= j < ITEM_CODES ==> sizes[j] < 8
    ensures |HeaderBits(main, dist, lengths, items, sizes)| <= HEADER_BITS
  {
    hide AllUsed, ItemsBits, SizesBits, LowBits;
    ItemsBitsLength(items, sizes);
    SizesBitsLength(sizes, lengths);
  }

  /** The inflater reads back these lengths from the header, whatever follows it. */
  ghost predicate HeaderSays(header: Word, main: seq<nat>, dist: seq<nat>) {
    forall rest: Word :: ReadHeader(header + rest) == Some(Header(main, dist, rest))
  }

  /** No more than 30 distance codes are announced, as many as there are. */
  ghost predicate FewDistances(header: Word) {
    |header| >= 10 && Reversed(header[5..10]) < 30
  }

  lemma FewAreSent(main: nat, dist: nat, lengths: nat, items: seq<Item>, sizes: seq<nat>)
    requires 257 <= main && 1 <= dist <= 30 && 4 <= lengths <= ITEM_CODES == |sizes| && AllUsed(items, sizes)
    ensures FewDistances(HeaderBits(main, dist, lengths, items, sizes))
  {
    hide LowBits, Reversed, AllUsed;
    var header := HeaderBits(main, dist, lengths, items, sizes);
    assert header[5..10] == LowBits(dist - 1, 5);
    assert Pow2(5) == 32;
    ReversedOfLowBits(dist - 1, 5);
  }

  /** The count, length and code arrays of both alphabets are six arrays. */
  predicate SixArrays(a: array<nat>, b: array<nat>, c: array<nat>, d: array<nat>, e: array<nat>, f: array<nat>) {
    && a !in {b, c, d, e, f} && b !in {c, d, e, f} && c !in {d, e, f} && d !in {e, f} && e != f
    && a.Length == b.Length == c.Length == 288 && d.Length == e.Length == f.Length == 32
  }

  lemma CountEndOfBlock(count: seq<nat>)
    requires |count| == 288 && Sum(count) + 1 < 65536
    ensures Sum(count[256 := 1]) < 65536
  {
    SumUpdate(count, 256, 1);
  }

  /** The tables of both alphabets, with the end-of-block symbol counted once. */
  method BuildTables(mainCount: array<nat>, mainSizes: array<nat>, mainCodes: array<nat>,
                     distCount: array<nat>, distSizes: array<nat>, distCodes: array<nat>)
    requires SixArrays(mainCount, mainSizes, mainCodes, distCount, distSizes, distCodes)
    requires Sum(mainCount[..]) + 1 < 65536 && Sum(distCount[..]) < 65536
    modifies mainCount, mainSizes, mainCodes, distSizes, distCodes
    ensures mainCount[..] == old(mainCount[..])[256 := 1]
    ensures GoodSizes(mainCount[..], mainSizes[..], MAX_BITS) && Coded(mainCodes[..], mainSizes[..], 288)
    ensures GoodSizes(distCount[..], distSizes[..], MAX_BITS) && Coded(distCodes[..], distSizes[..], 32)
    ensures WellBuilt(mainCount[..], mainSizes[..]) && WellBuilt(distCount[..], distSizes[..])
  {
    hide Coded, GoodSizes, Sum, Ordered, MergedLengths, MeasuredSizes, LimitedSizes, Pow2;
    ghost var m := mainCount[..];
    CountEndOfBlock(m);
    RoomForSymbols();
    mainCount[256] := 1;
    assert mainCount[..] == m[256 := 1];
    var order, lens := OptimizeTable(mainCount, mainSizes, mainCodes, 288, MAX_BITS);
    assert mainSizes[..288] == mainSizes[..];
    ghost var ms, mc := mainSizes[..], mainCodes[..];
    assert Built(m[256 := 1], order, lens, ms, MAX_BITS);
    order, lens := OptimizeTable(distCount, distSizes, distCodes, 32, MAX_BITS);
    assert distSizes[..32] == distSizes[..];
    assert mainCount[..] == m[256 := 1] && mainSizes[..] == ms && mainCodes[..] == mc;
    assert Built(distCount[..], order, lens, distSizes[..], MAX_BITS);
  }

  lemma RoomForSymbols()
    ensures 288 <= Pow2(MAX_BITS) && 32 <= Pow2(MAX_BITS)
  {
    assert Pow2(9) == 512;
    Pow2Monotone(9, MAX_BITS);
  }

  /** No symbol of the last ones occurs, so none has a code. */
  lemma NoLastCodes(count: seq<nat>, sizes: seq<nat>, n: nat)
    requires GoodSizes(count, sizes, MAX_BITS) && n <= |count| && forall k :: n <= k < |count| ==> count[k] == 0
    ensures ZeroFrom(sizes, n)
  {
  }

  lemma JoinedSizes(main: seq<nat>, dist: seq<nat>)
    requires |main| + |dist| <= MAX_SIZES
    requires (forall k :: 0 <= k < |main| ==> main[k] < 16) && (forall k :: 0 <= k < |dist| ==> dist[k] < 16)
    ensures Sizes(main + dist)
  {
  }

  lemma HeaderIsRead(main: seq<nat>, dist: seq<nat>, lengths: nat, items: seq<Item>, sizes: seq<nat>)
    requires 257 <= |main| <= 288 && 1 <= |dist| <= 32
    requires EnoughSent(sizes, lengths) && Accepted(sizes) && forall j :: 0 <= j < ITEM_CODES ==> sizes[j] < 8
    requires AllUsed(items, sizes) && AllGood(items) && Unpack(items) == Some(main + dist)
    ensures HeaderSays(HeaderBits(|main|, |dist|, lengths, items, sizes), main, dist)
  {
    hide ReadHeader, HeaderBits, Accepted, AllUsed, AllGood, Unpack;
    forall rest: Word
      ensures ReadHeader(HeaderBits(|main|, |dist|, lengths, items, sizes) + rest) == Some(Header(main, dist, rest))
    {
      HeaderRoundTrip(main, dist, lengths, items, sizes, rest);
    }
  }

  /** A header without waste: trailing zeros are left out of all three lists, repeats are sent as such. */
  ghost predicate Compact(header: Word, main: seq<nat>, dist: seq<nat>, lengths: nat, items: seq<Item>, sizes: seq<nat>) {
    && (|main| > 257 ==> main[|main| - 1] != 0) && (|dist| > 1 ==> dist[|dist| - 1] != 0) && NoneTooMany(sizes, lengths)
    && Tight(items) && Unpack(items) == Some(main + dist)
    && 257 <= |main| <= 286 && 1 <= |dist| <= 30 && AllUsed(items, sizes)
    && header == HeaderBits(|main|, |dist|, lengths, items, sizes)
  }

  /** Builds both tables of a block from its counts and writes its header. */
  method StartDynamicBlock(mainCount: array<nat>, mainSizes: array<nat>, mainCodes: array<nat>,
                           distCount: array<nat>, distSizes: array<nat>, distCodes: array<nat>, w: BitWriter)
      returns (ghost header: Word, ghost main: seq<nat>, ghost dist: seq<nat>)
    requires SixArrays(mainCount, mainSizes, mainCodes, distCount, distSizes, distCodes)
    requires Sum(mainCount[..]) + 1 < 65536 && mainCount[286] == 0 && mainCount[287] == 0
    requires Sum(distCount[..]) < 65536 && distCount[30] == 0 && distCount[31] == 0
    requires w.Valid()
    modifies mainCount, mainSizes, mainCodes, distSizes, distCodes, w
    ensures mainCount[..] == old(mainCount[..])[256 := 1] && distCount[..] == old(distCount[..])
    ensures GoodSizes(mainCount[..], mainSizes[..], MAX_BITS) && Coded(mainCodes[..], mainSizes[..], 288)
    ensures GoodSizes(distCount[..], distSizes[..], MAX_BITS) && Coded(distCodes[..], distSizes[..], 32)
    ensures Sent(mainSizes[..], main) && Sent(distSizes[..], dist)
    ensures w.Valid() && w.Bits() == old(w.Bits()) + LowBits(2, 2) + header && HeaderSays(header, main, dist)
    ensures WellBuilt(mainCount[..], mainSizes[..]) && WellBuilt(distCount[..], distSizes[..]) && |header| <= HEADER_BITS
    ensures FewDistances(header) && exists lengths, items, sizes :: Compact(header, main, dist, lengths, items, sizes)
  {
    hide Tight, NoneTooMany, FewDistances, AllUsed, Coded, AllGood, Flat, LowBits, GoodSizes, Sent, Sum, Accepted, HeaderBits, BitsOfBytes, Unpack,
      HeaderSays, ZeroFrom, WellBuilt;
    BuildTables(mainCount, mainSizes, mainCodes, distCount, distSizes, distCodes);
    NoLastCodes(mainCount[..], mainSizes[..], 286);
    NoLastCodes(distCount[..], distSizes[..], 30);
    var mainSent := Trim(mainSizes, 286, 257);
    var distSent := Trim(distSizes, 30, 1);
    SentPart(mainCount[..], mainSizes[..], mainSent);
    SentPart(distCount[..], distSizes[..], distSent);
    main, dist := mainSizes[..mainSent], distSizes[..distSent];
    assert mainSizes[..][..mainSent] == main && distSizes[..][..distSent] == dist;
    JoinedSizes(main, dist);
    var packer, sizes, codes := PackLengths(mainSizes[..mainSent] + distSizes[..distSent]);
    assert Pow2(2) == 4;
    w.PutBits(2, 2);
    var lengths := WriteHeader(w, mainSent, distSent, packer, sizes, codes);
    HeaderIsRead(main, dist, lengths, packer.items, sizes[..]);
    header := HeaderBits(mainSent, distSent, lengths, packer.items, sizes[..]);
    PackedShape(packer);
    HeaderBitsLength(mainSent, distSent, lengths, packer.items, sizes[..]);
    FewAreSent(mainSent, distSent, lengths, packer.items, sizes[..]);
    assert Compact(header, main, dist, lengths, packer.items, sizes[..]);
  }
}
