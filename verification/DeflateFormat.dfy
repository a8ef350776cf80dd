/** The deflate format (RFC 1951) in its own terms: laws of the definitions that compressor and inflater share, by numbers. */
module DeflateFormat {
  import opened Sequences
  import opened Wrappers
  import opened Arithmetic
  import opened PrefixCodes
  import opened CanonicalCodes
  import opened CanonicalOrder
  import opened InflateTable
  import opened BitBuffers
  import opened LzTokens
  import opened CodeLengths
  import opened CodeLengthRuns
  import opened DynamicHeader
  import opened DeflateBlock
  import opened Inflate
  import LengthLimit

  // ----- section 3.1: bits of bytes, and of code words

  /** Bytes are read from the lowest bit on. */
  lemma {:induction false} BitOfByte(bytes: seq<nat>, i: nat, j: nat)
    requires i < |bytes| && j < 8
    ensures ByteBits(bytes)[8 * i + j] == (bytes[i] / Pow2(j) % 2 == 1)
  {
    hide LowBits, Pow2;
    BitOfPrefix(bytes, |bytes|, i, j);
  }

  lemma {:induction false} BitOfPrefix(bytes: seq<nat>, k: nat, i: nat, j: nat)
    requires i < k <= |bytes| && j < 8
    ensures BitsOfBytes(bytes, 0, k)[8 * i + j] == (bytes[i] / Pow2(j) % 2 == 1)
  {
    hide LowBits, Pow2;
    if i < k - 1 { BitOfPrefix(bytes, k - 1, i, j); } else { LowBitsAt(bytes[i], 8, j); }
  }

  // ----- section 3.2.5: lengths and distances

  /** The lengths of symbols 257 to 284 follow one another from 3 on, one extra bit more for every four symbols from the
      ninth on; the last symbol is 258 alone. */
  lemma LengthTable(i: nat)
    requires i < 29
    ensures |LENGTH_BASE| == |LENGTH_EXTRA| == 29 && LENGTH_BASE[0] == 3 && LENGTH_BASE[28] == 258 && LENGTH_EXTRA[28] == 0
    ensures i < 28 ==> LENGTH_EXTRA[i] == if i < 8 then 0 else i / 4 - 1
    ensures i < 27 ==> LENGTH_BASE[i + 1] == LENGTH_BASE[i] + Pow2(LENGTH_EXTRA[i])
    ensures i == 27 ==> LENGTH_BASE[i] + Pow2(LENGTH_EXTRA[i]) == 259
  {
    hide Pow2;
    Powers();
  }

  /** The distances of the thirty symbols follow one another from 1 to 32768, one extra bit more for every two from the fifth
      on. */
  lemma DistTable(i: nat)
    requires i < 30
    ensures |DIST_BASE| == |DIST_EXTRA| == 30 && DIST_BASE[0] == 1
    ensures DIST_EXTRA[i] == if i < 4 then 0 else i / 2 - 1
    ensures i < 29 ==> DIST_BASE[i + 1] == DIST_BASE[i] + Pow2(DIST_EXTRA[i])
    ensures i == 29 ==> DIST_BASE[i] + Pow2(DIST_EXTRA[i]) == 32769
  {
    hide Pow2;
    Powers();
  }

  // ----- section 3.2.7: the header of a dynamic block

  /** The order in which the standard has the lengths of the code length codes sent. */
  const ORDER: seq<nat> := [16, 17, 18, 0, 8, 7, 9, 6, 10, 5, 11, 4, 12, 3, 13, 2, 14, 1, 15]

  lemma InOrder()
    ensures |ORDER| == 19 && ORDER == SWIZZLE && forall i :: 0 <= i < 19 ==> ORDER[i] < 19
  {
    SwizzleIsPermutation();
  }

  lemma {:induction false} SizesInOrder(sizes: seq<nat>, k: nat, i: nat)
    requires |sizes| == 19 && i < k <= 19
    ensures |SizesBits(sizes, k)| == 3 * k && |ORDER| == 19 && ORDER[i] < 19
    ensures SizesBits(sizes, k)[3 * i..3 * i + 3] == LowBits(sizes[ORDER[i]], 3)
  {
    hide LowBits, ORDER, SWIZZLE;
    InOrder();
    SizesBitsLength(sizes, k - 1);
    SizesBitsLength(sizes, k);
    if i < k - 1 {
      SizesInOrder(sizes, k - 1, i);
      assert SizesBits(sizes, k)[3 * i..3 * i + 3] == SizesBits(sizes, k - 1)[3 * i..3 * i + 3];
    }
  }

  /** Three counts; then the lengths of the code length codes, three bits each, those of 16, 17, 18, 0, 8, 7, 9, 6, 10, 5, 11, 4,
      12, 3, 13, 2, 14, 1, 15 as far as they are sent. */
  lemma HeaderInOrder(main: nat, dist: nat, lengths: nat, items: seq<Item>, sizes: seq<nat>, i: nat)
    requires 257 <= main && 1 <= dist && 4 <= lengths <= 19 == |sizes| && AllUsed(items, sizes) && i < lengths
    ensures var header := HeaderBits(main, dist, lengths, items, sizes);
      && |header| >= 14 + 3 * lengths && |ORDER| == 19 && ORDER[i] < 19
      && header[..5] == LowBits(main - 257, 5) && header[5..10] == LowBits(dist - 1, 5) && header[10..14] == LowBits(lengths - 4, 4)
      && header[14 + 3 * i..17 + 3 * i] == LowBits(sizes[ORDER[i]], 3)
  {
    hide LowBits, AllUsed, SizesBits, ItemsBits, ORDER;
    SizesBitsLength(sizes, lengths);
    SizesInOrder(sizes, lengths, i);
    var header, front := HeaderBits(main, dist, lengths, items, sizes),
      LowBits(main - 257, 5) + (LowBits(dist - 1, 5) + LowBits(lengths - 4, 4));
    assert header == front + (SizesBits(sizes, lengths) + ItemsBits(items, sizes));
    assert header[14 + 3 * i..17 + 3 * i] == SizesBits(sizes, lengths)[3 * i..3 * i + 3];
  }

  /** The reader puts them back in the same order. */
  lemma {:induction false} SizesReadInOrder(bits: Word, from: nat, end: nat, sizes: seq<nat>, i: nat)
    requires |sizes| == 19 && from <= i < end <= 19 && |bits| >= 3 * (end - from)
    ensures var r := ReadSizes(bits, from, end, sizes);
      r.Read? && |r.value| == |ORDER| == 19 && ORDER[i] < 19 && r.value[ORDER[i]] == Reversed(bits[3 * (i - from)..3 * (i - from) + 3])
    decreases end - from
  {
    hide Reversed, ORDER, SWIZZLE;
    InOrder();
    SwizzleIsPermutation();
    var next := sizes[SWIZZLE[from] := Reversed(bits[..3])];
    if from < i {
      SizesReadInOrder(bits[3..], from + 1, end, next, i);
      assert bits[3..][3 * (i - from - 1)..3 * (i - from - 1) + 3] == bits[3 * (i - from)..3 * (i - from) + 3];
    } else {
      OthersRead(bits[3..], from + 1, end, next, i);
    }
  }

  /** A length that has been read stays. */
  lemma {:induction false} OthersRead(bits: Word, from: nat, end: nat, sizes: seq<nat>, i: nat)
    requires |sizes| == 19 && i < from <= end <= 19 && |bits| >= 3 * (end - from)
    ensures var r := ReadSizes(bits, from, end, sizes);
      r.Read? && |r.value| == |SWIZZLE| == 19 && SWIZZLE[i] < 19 && r.value[SWIZZLE[i]] == sizes[SWIZZLE[i]]
    decreases end - from
  {
    hide Reversed, SWIZZLE;
    SwizzleIsPermutation();
    if from < end {
      assert SWIZZLE[i] != SWIZZLE[from];
      OthersRead(bits[3..], from + 1, end, sizes[SWIZZLE[from] := Reversed(bits[..3])], i);
    }
  }

  /** 16 repeats the length before three to six times, 17 and 18 stand for three to ten and eleven to 138 zeros. */
  lemma RepeatCodes(sofar: seq<nat>, code: nat, extra: nat)
    requires code < 19
    ensures code < 16 ==> ExtraBits(code) == 0 && UnpackItem(sofar, Item(code, extra)) == Some(sofar + [code])
    ensures code == 16 ==> ExtraBits(code) == 2 && (sofar == [] ==> UnpackItem(sofar, Item(code, extra)) == None)
    ensures code == 16 && sofar != [] ==>
      UnpackItem(sofar, Item(code, extra)) == Some(sofar + seq(3 + extra, _ => sofar[|sofar| - 1]))
    ensures code == 17 ==> ExtraBits(code) == 3 && UnpackItem(sofar, Item(code, extra)) == Some(sofar + seq(3 + extra, _ => 0))
    ensures code == 18 ==> ExtraBits(code) == 7 && UnpackItem(sofar, Item(code, extra)) == Some(sofar + seq(11 + extra, _ => 0))
  {
    if code == 16 && sofar != [] { assert Copies(sofar[|sofar| - 1], extra + 3) == seq(3 + extra, _ => sofar[|sofar| - 1]); }
    if code == 17 { assert Copies(0, extra + 3) == seq(3 + extra, _ => 0); }
    if code == 18 { assert Copies(0, extra + 11) == seq(11 + extra, _ => 0); }
  }

  // ----- sections 3.2.3 and 3.2.4: blocks

  /** The bit that says whether a block is the last; then two for its kind. */
  lemma BlockKinds(last: bool, rest: Word)
    ensures ReadBlock([last, false, false] + rest) == ReadKind(0, rest, last)
    ensures ReadBlock([last, true, false] + rest) == match ReadTokens(rest, FixedMain(), FixedDist())
      case Fail => NoBlock
      case Read(tokens, more) => BlockRead(last, Coded(tokens), more)
    ensures ReadBlock([last, false, true] + rest) == match InflateDynamic(rest)
      case Fail => NoBlock
      case Read(tokens, more) => BlockRead(last, Coded(tokens), more)
    ensures ReadBlock([last, true, true] + rest) == NoBlock
  {
    hide ReadTokens, InflateDynamic, ReadStored, Reversed;
    ThreeBits(last, false, false);
    ThreeBits(last, true, false);
    ThreeBits(last, false, true);
    ThreeBits(last, true, true);
    AfterThree([last, false, false], rest);
    AfterThree([last, true, false], rest);
    AfterThree([last, false, true], rest);
    AfterThree([last, true, true], rest);
  }

  lemma ThreeBits(a: bool, b: bool, c: bool)
    ensures Reversed([a, b, c]) == (if a then 1 else 0) + (if b then 2 else 0) + (if c then 4 else 0)
  {
    assert [a, b, c][1..] == [b, c] && [b, c][1..] == [c] && [c][1..] == [];
    assert Reversed([c]) == if c then 1 else 0;
    assert Reversed([b, c]) == (if b then 1 else 0) + 2 * Reversed([c]);
  }

  lemma AfterThree(head: Word, rest: Word)
    requires |head| == 3
    ensures GetBits(head + rest, 3) == Read(Reversed(head), rest)
  {
    assert (head + rest)[..3] == head && (head + rest)[3..] == rest;
  }

  lemma {:induction false} JoinBytes(a: seq<nat>, b: seq<nat>)
    ensures ByteBits(a + b) == ByteBits(a) + ByteBits(b)
  {
    hide LowBits;
    if b == [] {
      assert a + b == a && ByteBits(a) + [] == ByteBits(a);
    } else {
      var init, c := b[..|b| - 1], b[|b| - 1];
      JoinBytes(a, init);
      assert a + b == (a + init) + [c] && b == init + [c];
      BitsOfBytesSnoc(a + init, c);
      BitsOfBytesSnoc(init, c);
      JoinThree(ByteBits(a), ByteBits(init), LowBits(c, 8));
    }
  }

  lemma OneByte(c: nat)
    ensures ByteBits([c]) == LowBits(c, 8)
  {
    hide LowBits;
    BitsOfBytesSnoc([], c);
    assert [] + [c] == [c] && ByteBits([]) == [] && [] + LowBits(c, 8) == LowBits(c, 8);
  }

  lemma {:induction false} ZeroBitsJoin(n: nat, m: nat)
    ensures LowBits(0, n) + LowBits(0, m) == LowBits(0, n + m)
  {
    if n > 0 {
      ZeroBitsJoin(n - 1, m);
      assert LowBits(0, n) + LowBits(0, m) == [false] + (LowBits(0, n - 1) + LowBits(0, m));
    } else {
      assert [] + LowBits(0, m) == LowBits(0, m);
    }
  }

  lemma TwoBytesOf(v: nat)
    requires v < 65536
    ensures LowBits(v, 16) == LowBits(v % 256, 8) + LowBits(v / 256, 8)
  {
    hide LowBits;
    LengthLimit.Pow32();
    TakeByte(v, 8);
  }

  /** A stored block at a byte boundary: a byte that says whether it is the last, the length, low byte first, its complement,
      and the bytes themselves. */
  lemma StoredOnBytes(last: bool, data: seq<nat>, more: Word)
    requires Bytes(data) && |data| < 65536 && Whole(|more|)
    ensures var n := |data|;
      var bytes := [if last then 1 else 0, n % 256, n / 256, 255 - n % 256, 255 - n / 256] + data;
      ReadBlock(ByteBits(bytes) + more) == BlockRead(last, Stored(data), more)
  {
    hide LowBits, ByteBits, ReadBlock, StoredBits, Bytes;
    var n := |data|;
    StoredHead(last, data);
    var bits := StoredBits(data, 1);
    StoredSays(data, 1);
    StoredLength(data, 1);
    SaysAt(bits, 1, Stored(data), last, more);
  }

  lemma StoredHead(last: bool, data: seq<nat>)
    requires |data| < 65536
    ensures var n := |data|;
      ByteBits([if last then 1 else 0, n % 256, n / 256, 255 - n % 256, 255 - n / 256] + data) == [last] + StoredBits(data, 1)
    ensures |Fill(3)| == 5
  {
    hide LowBits, ByteBits;
    var n, c := |data|, 65535 - |data|;
    var f: nat := if last then 1 else 0;
    var head := [f, n % 256, n / 256, 255 - n % 256, 255 - n / 256];
    assert c % 256 == 255 - n % 256 && c / 256 == 255 - n / 256;
    TwoBytesOf(n);
    TwoBytesOf(c);
    LowestBit(last, 0, 7);
    ZeroBitsJoin(2, 5);
    assert f + 2 * 0 == f;
    JoinBytes(head, data);
    FiveBytes(f, n % 256, n / 256, c % 256, c / 256);
    assert [last] + StoredBits(data, 1) == ([last] + (LowBits(0, 2) + LowBits(0, 5))) + ((LowBits(n, 16) + LowBits(c, 16)) + ByteBits(data));
    assert LowBits(f, 8) == [last] + LowBits(0, 7);
    Regroup(LowBits(f, 8), LowBits(n % 256, 8), LowBits(n / 256, 8), LowBits(c % 256, 8), LowBits(c / 256, 8), ByteBits(data));
  }

  lemma Regroup(a: Word, b: Word, c: Word, d: Word, e: Word, f: Word)
    ensures (a + (b + (c + (d + e)))) + f == a + (((b + c) + (d + e)) + f)
  {
  }

  lemma FiveBytes(a: nat, b: nat, c: nat, d: nat, e: nat)
    ensures ByteBits([a, b, c, d, e]) == LowBits(a, 8) + (LowBits(b, 8) + (LowBits(c, 8) + (LowBits(d, 8) + LowBits(e, 8))))
  {
    hide LowBits, ByteBits;
    assert [a, b, c, d, e] == [a] + ([b] + ([c] + ([d] + [e])));
    JoinBytes([a], [b] + ([c] + ([d] + [e])));
    JoinBytes([b], [c] + ([d] + [e]));
    JoinBytes([c], [d] + [e]);
    JoinBytes([d], [e]);
    OneByte(a);
    OneByte(b);
    OneByte(c);
    OneByte(d);
    OneByte(e);
  }
}
