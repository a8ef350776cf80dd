/** The zlib format (RFC 1950) in its own terms: which headers are accepted, what the checksum stands for, and one stream in
    full. */
module ZlibFormat {
  import opened Sequences
  import opened Wrappers
  import opened Arithmetic
  import opened PrefixCodes
  import opened CanonicalCodes
  import opened BitBuffers
  import opened LzTokens
  import opened DynamicHeader
  import opened DeflateBlock
  import opened Inflate
  import opened DeflateFormat
  import opened Adler32

  // ----- section 2.2: the header

  /** The check that completes the first byte and a level. */
  function Check(cmf: nat, level: nat): (f: nat)
    ensures f < 31 && (cmf * 256 + 64 * level + f) % 31 == 0
  {
    Completed(cmf * 256 + 64 * level);
    (31 - (cmf * 256 + 64 * level) % 31) % 31
  }

  lemma Completed(x: nat)
    ensures (31 - x % 31) % 31 < 31 && (x + (31 - x % 31) % 31) % 31 == 0
  {
    var q, r := DivParts(x, 31);
    if r > 0 { ModUnique(x + (31 - r), 31, q + 1, 0); }
  }

  /** For every first byte with the deflate method and every level just one check of five bits makes a header that is accepted;
      but where it is 0, which takes a window larger than the format has, 31 does as well. */
  lemma AcceptedHeaders(cmf: nat, level: nat, f: nat)
    requires cmf < 256 && cmf % 16 == 8 && level < 4 && f < 32
    ensures GoodHeader(cmf, 64 * level + f) <==> f == Check(cmf, level) || (f == 31 && Check(cmf, level) == 0)
    ensures cmf / 16 <= 7 ==> Check(cmf, level) != 0
  {
    var x, c := cmf * 256 + 64 * level, Check(cmf, level);
    assert (x + f) % 31 == 0 <==> f == c || (f == 31 && c == 0) by { SameCheck(x, c, f); }
    assert (64 * level + f) / 32 % 2 == 0 by { DivUnique(64 * level + f, 32, 2 * level, f); ModUnique(2 * level, 2, level, 0); }
    if cmf / 16 <= 7 { SmallWindows(cmf / 16, level); }
  }

  lemma SmallWindows(k: nat, level: nat)
    requires k <= 7 && level < 4
    ensures ((16 * k + 8) * 256 + 64 * level) % 31 != 0
  {
  }

  lemma SameCheck(x: nat, c: nat, f: nat)
    requires c < 31 && f < 32 && (x + c) % 31 == 0
    ensures (x + f) % 31 == 0 <==> f == c || (f == 31 && c == 0)
  {
    var q := (x + c) / 31;
    assert x + c == 31 * q;
    if (x + f) % 31 == 0 {
      var p := (x + f) / 31;
      assert x + f == 31 * p && f - c == 31 * (p - q);
    }
    if f == 31 && c == 0 { assert x + f == 31 * (q + 1); }
  }

  /** A preset dictionary and other methods are refused, whatever the check. */
  lemma RefusedHeaders(cmf: nat, level: nat, f: nat)
    requires f < 32 && level < 4
    ensures !GoodHeader(cmf, 64 * level + 32 + f)
    ensures cmf % 16 != 8 ==> !GoodHeader(cmf, 64 * level + f)
  {
    DivUnique(64 * level + 32 + f, 32, 2 * level + 1, f);
  }

  // ----- whole streams

  /** At the next byte boundary stand four bytes, the highest first. */
  predicate NumberBehind(rest: Word, number: nat) {
    var tail := rest[|rest| % 8..];
    |tail| >= 32 && number ==
      Reversed(tail[..8]) * 0x100_0000 + Reversed(tail[8..16]) * 0x1_0000 + Reversed(tail[16..24]) * 0x100 + Reversed(tail[24..32])
  }

  /** A zlib stream stands for bytes exactly if its header is one of those, what follows inflates to them, and the next four
      whole bytes are their checksum, highest byte first. */
  lemma ZlibExactly(bytes: seq<nat>, out: seq<nat>)
    ensures InflateZlib(bytes) == Some(out) <==>
      && |bytes| >= 2 && (bytes[0] * 256 + bytes[1]) % 31 == 0 && bytes[1] / 32 % 2 == 0 && bytes[0] % 16 == 8
      && var r := InflateFrom(ByteBits(bytes)[16..], []);
         r.Inflated? && r.out == out && NumberBehind(r.rest, Checksum(1, out))
  {
    hide InflateFrom, Checksum, ByteBits, NumberBehind, Trailer;
    if |bytes| >= 2 {
      var r := InflateFrom(ByteBits(bytes)[16..], []);
      if r.Inflated? { TrailerIs(r.rest, Checksum(1, r.out)); }
    }
  }

  lemma TrailerIs(rest: Word, number: nat)
    ensures Trailer(rest) == Some(number) <==> NumberBehind(rest, number)
  {
    hide Reversed;
    if |Aligned(rest)| >= 32 { FourOf(Aligned(rest)); }
  }

  lemma FourOf(tail: Word)
    requires |tail| >= 32
    ensures BigEndian(BytesOf(tail, 4)) ==
      Reversed(tail[..8]) * 0x100_0000 + Reversed(tail[8..16]) * 0x1_0000 + Reversed(tail[16..24]) * 0x100 + Reversed(tail[24..32])
  {
    hide Reversed;
    assert tail[8..][..8] == tail[8..16] && tail[8..][8..] == tail[16..];
    assert tail[16..][..8] == tail[16..24] && tail[16..][8..] == tail[24..];
    assert tail[24..][..8] == tail[24..32];
    assert BytesOf(tail, 4) == [Reversed(tail[..8])] + BytesOf(tail[8..], 3);
    assert BytesOf(tail[8..], 3) == [Reversed(tail[8..16])] + BytesOf(tail[16..], 2);
    assert BytesOf(tail[16..], 2) == [Reversed(tail[16..24])] + BytesOf(tail[24..], 1);
    assert BytesOf(tail[24..], 1) == [Reversed(tail[24..32])] + BytesOf(tail[24..][8..], 0);
  }

  /** Which of the accepted headers a stream has makes no difference. */
  lemma HeadersAreAlike(cmf: nat, flg: nat, cmf': nat, flg': nat, rest: seq<nat>)
    requires (cmf * 256 + flg) % 31 == 0 && flg / 32 % 2 == 0 && cmf % 16 == 8
    requires (cmf' * 256 + flg') % 31 == 0 && flg' / 32 % 2 == 0 && cmf' % 16 == 8
    ensures InflateZlib([cmf, flg] + rest) == InflateZlib([cmf', flg'] + rest)
  {
    hide InflateFrom, Checksum, ByteBits, Trailer;
    JoinBytes([cmf, flg], rest);
    JoinBytes([cmf', flg'], rest);
    assert ByteBits([cmf, flg] + rest)[16..] == ByteBits(rest) == ByteBits([cmf', flg'] + rest)[16..];
  }

  lemma AnyHeader(bytes: seq<nat>)
    requires |bytes| >= 2 && GoodHeader(bytes[0], bytes[1])
    ensures forall cmf: nat, flg: nat :: (cmf * 256 + flg) % 31 == 0 && flg / 32 % 2 == 0 && cmf % 16 == 8 ==>
      InflateZlib([cmf, flg] + bytes[2..]) == InflateZlib(bytes)
  {
    hide InflateZlib;
    assert bytes == [bytes[0], bytes[1]] + bytes[2..];
    forall cmf: nat, flg: nat | (cmf * 256 + flg) % 31 == 0 && flg / 32 % 2 == 0 && cmf % 16 == 8
      ensures InflateZlib([cmf, flg] + bytes[2..]) == InflateZlib(bytes)
    {
      HeadersAreAlike(cmf, flg, bytes[0], bytes[1], bytes[2..]);
    }
  }

  lemma HeaderTest(cmf: nat, flg: nat)
    ensures GoodHeader(cmf, flg) <==> (cmf * 256 + flg) % 31 == 0 && flg / 32 % 2 == 0 && cmf % 16 == 8
  {
  }

  // ----- one stream in full

  /** The bits of a literal in a block with fixed codes (section 3.2.6 of RFC 1951). */
  function LiteralBits(data: seq<nat>): (bits: Word) {
    if data == [] then []
    else (if data[0] < 144 then Bits(48 + data[0], 8) else Bits(256 + data[0], 9)) + LiteralBits(data[1..])
  }

  function Literals(data: seq<nat>): (tokens: seq<Token>)
    ensures |tokens| == |data| && forall i :: 0 <= i < |data| ==> tokens[i] == Literal(data[i])
  {
    seq(|data|, i requires 0 <= i < |data| => Literal(data[i]))
  }

  lemma {:induction false} LiteralTokens(data: seq<nat>)
    requires Bytes(data)
    ensures AllCodable(Literals(data)) && AllCoverable(Literals(data), FixedMain(), FixedDist())
    ensures TokensBits(Literals(data), FixedMain(), FixedDist()) == LiteralBits(data)
  {
    hide FixedMain, FixedDist, CodeWord, Bits;
    if data != [] {
      assert Literals(data)[1..] == Literals(data[1..]) && Literals(data)[0] == Literal(data[0]);
      FixedWords(data[0]);
      LiteralTokens(data[1..]);
    }
  }

  lemma {:induction false} LiteralsExpand(out: seq<nat>, data: seq<nat>)
    ensures ExpandFrom(out, Literals(data)) == Some(out + data)
  {
    if data == [] {
      assert out + data == out;
    } else {
      var n := |data| - 1;
      LiteralsExpand(out, data[..n]);
      assert Literals(data)[..n] == Literals(data[..n]);
      assert (out + data[..n]) + [data[n]] == out + data;
    }
  }

  /** A final block with fixed codes: a flag, two bits for the kind, the literals, seven zeros. */
  lemma LiteralsInflate(data: seq<nat>, more: Word)
    requires Bytes(data) && (10 + |LiteralBits(data)| + |more|) % 8 == 0
    ensures InflateFrom([true, true, false] + LiteralBits(data) + Bits(0, 7) + more, []) == Inflated(data, more)
  {
    hide InflateFrom, ReadBlock, Bits, Says, LiteralBits, LowBits, Bytes, ExpandFrom, Literals;
    LiteralsSaid(data);
    LiteralsExpand([], data);
    assert [] + data == data;
    var said, block := [true, false] + (LiteralBits(data) + Bits(0, 7)), Coded(Literals(data));
    SaysAt(said, 1, block, true, more);
    RegroupFlag(LiteralBits(data), Bits(0, 7), more);
    FirstBlock([true] + said + more, [], true, block, data, more);
  }

  lemma RegroupFlag(a: Word, b: Word, c: Word)
    ensures [true, true, false] + a + b + c == [true] + ([true, false] + (a + b)) + c
  {
  }

  lemma LiteralsSaid(data: seq<nat>)
    requires Bytes(data)
    ensures Says([true, false] + (LiteralBits(data) + Bits(0, 7)), 1, Coded(Literals(data)))
  {
    hide FixedMain, FixedDist, Bits, Says, LiteralBits, LowBits, Literals, AllCodable, AllCoverable, TokensBits, StaticSays;
    LiteralTokens(data);
    StaticIsRead(Literals(data));
    FixedWords(END_OF_BLOCK);
    StaticBlockSays(LiteralBits(data) + Bits(0, 7), 1, Literals(data));
    TwoBits();
  }

  lemma TwoBits()
    ensures LowBits(1, 2) == [true, false]
  {
    assert LowBits(1, 2) == [true] + LowBits(0, 1);
    assert LowBits(0, 1) == [false] + LowBits(0, 0);
  }

  const LETTER: Word := [true, false, false, true, false, false, false, true]
  const ZEROS: Word := [false, false, false, false, false, false, false]
  const ZEROS6: Word := [false, false, false, false, false, false]

  lemma LetterBytes()
    ensures LowBits(0x4B, 8) == [true, true, false, true, false, false, true, false]
    ensures LowBits(0x04, 8) == [false, false, true, false, false, false, false, false]
    ensures LowBits(0x00, 8) == [false, false, false, false, false, false, false, false]
  {
    hide LowBits;
    FourBits(0x4B, 4);
    FourBits(0x4, 0);
    FourBits(0x04, 4);
    FourBits(0x00, 4);
    FourBits(0x0, 0);
    NoBits();
  }

  lemma NoBits()
    ensures LowBits(0, 0) == []
  {
  }

  lemma FourBits(v: nat, n: nat)
    ensures LowBits(v, n + 4) == [v % 2 == 1, v / 2 % 2 == 1, v / 4 % 2 == 1, v / 8 % 2 == 1] + LowBits(v / 16, n)
  {
    hide LowBits;
    NextBit(v, n + 3);
    NextBit(v / 2, n + 2);
    NextBit(v / 4, n + 1);
    NextBit(v / 8, n);
    assert v / 2 / 2 == v / 4 && v / 4 / 2 == v / 8 && v / 8 / 2 == v / 16;
  }

  lemma NextBit(v: nat, n: nat)
    ensures LowBits(v, n + 1) == [v % 2 == 1] + LowBits(v / 2, n)
  {
  }

  lemma LetterBits()
    ensures ByteBits([0x4B, 0x04, 0x00]) == [true, true, false] + LETTER + ZEROS + ZEROS6
  {
    hide ByteBits, LowBits;
    LetterBytes();
    JoinBytes([0x4B], [0x04, 0x00]);
    JoinBytes([0x04], [0x00]);
    assert [0x4B] + [0x04, 0x00] == [0x4B, 0x04, 0x00] && [0x04] + [0x00] == [0x04, 0x00];
    OneByte(0x4B);
    OneByte(0x04);
    OneByte(0x00);
  }

  lemma LetterWords()
    ensures LiteralBits([97]) == LETTER && Bits(0, 7) == ZEROS
  {
    assert Bits(145, 8) == LETTER;
    assert LiteralBits([97]) == LETTER + LiteralBits([97][1..]);
    assert LETTER + [] == LETTER;
  }

  lemma LetterInflates(more: Word)
    requires |more| % 8 == 0
    ensures InflateFrom(ByteBits([0x4B, 0x04, 0x00]) + more, []) == Inflated([97], ZEROS6 + more)
  {
    hide InflateFrom, ByteBits, LowBits, Bits, LiteralBits;
    LetterBits();
    LetterWords();
    LiteralsInflate([97], ZEROS6 + more);
    MoreBits(LETTER, ZEROS, ZEROS6, more);
  }

  lemma MoreBits(a: Word, b: Word, c: Word, more: Word)
    ensures [true, true, false] + a + b + c + more == [true, true, false] + a + b + (c + more)
  {
  }

  /** The letter a, as zlib puts it by default. */
  lemma OneLetter()
    ensures InflateRaw([0x4B, 0x04, 0x00]) == Some([97])
    ensures InflateZlib([0x78, 0x9C, 0x4B, 0x04, 0x00, 0x00, 0x62, 0x00, 0x62]) == Some([97])
  {
    hide InflateFrom, ByteBits, Checksum, Trailer;
    var body, sum := [0x4B, 0x04, 0x00], [0x00, 0x62, 0x00, 0x62];
    LetterInflates([]);
    assert ByteBits(body) + [] == ByteBits(body);
    LetterInflates(ByteBits(sum));
    JoinBytes([0x78, 0x9C], body + sum);
    JoinBytes(body, sum);
    var all := [0x78, 0x9C, 0x4B, 0x04, 0x00, 0x00, 0x62, 0x00, 0x62];
    assert all == [0x78, 0x9C] + (body + sum);
    assert ByteBits(all)[16..] == ByteBits(body + sum);
    LetterTrailer();
    LetterSum();
  }

  lemma LetterSum()
    ensures Checksum(1, [97]) == 0x62_0062
  {
  }

  lemma LetterTrailer()
    ensures Trailer(ZEROS6 + ByteBits([0x00, 0x62, 0x00, 0x62])) == Some(0x62_0062)
  {
    hide ByteBits, LowBits, Reversed;
    var sum := [0x00, 0x62, 0x00, 0x62];
    assert (ZEROS6 + ByteBits(sum))[6..] == ByteBits(sum);
    FourBytesBack(0x00, 0x62, 0x00, 0x62);
  }

  lemma FourBytesBack(a: nat, b: nat, c: nat, d: nat)
    requires Bytes([a, b, c, d])
    ensures BytesOf(ByteBits([a, b, c, d]), 4) == [a, b, c, d]
  {
    BytesBack([a, b, c, d], []);
    assert ByteBits([a, b, c, d]) + [] == ByteBits([a, b, c, d]);
  }
}
