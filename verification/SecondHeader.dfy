/** What happens when the count of flushes comes round to 0: the zlib header is put out again, in the middle of the stream. */
module SecondHeader {
  import opened Sequences
  import opened Wrappers
  import opened Arithmetic
  import opened PrefixCodes
  import opened CanonicalCodes
  import opened BitBuffers
  import opened CodeLengths
  import opened LzTokens
  import opened DynamicHeader
  import opened DeflateBlock
  import opened Inflate
  import opened DeflateWriter
  import opened LzCodeBuffer
  import opened Adler32

  // ----- numbers that are each other's complement

  ghost predicate Opposite(a: Word, b: Word) {
    |a| == |b| && forall i :: 0 <= i < |a| ==> a[i] != b[i]
  }

  lemma {:induction false} OppositeSum(a: Word, b: Word)
    requires |a| == |b|
    ensures Reversed(a) + Reversed(b) == Pow2(|a|) - 1 <==> Opposite(a, b)
  {
    if a != [] {
      OppositeSum(a[1..], b[1..]);
      if Opposite(a[1..], b[1..]) && a[0] != b[0] {
        forall i | 0 <= i < |a| ensures a[i] != b[i] { assert i > 0 ==> a[i] == a[1..][i - 1] && b[i] == b[1..][i - 1]; }
      }
      if Opposite(a, b) {
        forall i | 0 <= i < |a| - 1 ensures a[1..][i] != b[1..][i] { assert a[1..][i] == a[i + 1] && b[1..][i] == b[i + 1]; }
      }
    }
  }

  // ----- the second header, read as the start of a stored block

  lemma {:induction false} ZeroBits(n: nat)
    ensures Bits(0, n) == LowBits(0, n) && forall i :: 0 <= i < n ==> !LowBits(0, n)[i]
  {
    if n > 0 {
      ZeroBits(n - 1);
      assert Bits(0, n) == Bits(0, n - 1) + [false] && LowBits(0, n) == [false] + LowBits(0, n - 1);
    }
  }

  lemma {:induction false} LowBitsJoin(a: nat, n: nat, b: nat, m: nat)
    requires a < Pow2(n)
    ensures LowBits(a + Pow2(n) * b, n + m) == LowBits(a, n) + LowBits(b, m)
  {
    if n == 0 {
      assert [] + LowBits(b, m) == LowBits(b, m);
    } else {
      var v: nat := a + Pow2(n) * b;
      assert Pow2(n) * b == 2 * (Pow2(n - 1) * b);
      assert v % 2 == a % 2 && v / 2 == a / 2 + Pow2(n - 1) * b;
      LowBitsJoin(a / 2, n - 1, b, m);
      assert LowBits(v, n + m) == [a % 2 == 1] + (LowBits(a / 2, n - 1) + LowBits(b, m));
    }
  }

  lemma HeaderSplit()
    ensures ByteBits(ZLIB_HEADER) == LowBits(0, 3) + (LowBits(15, 5) + LowBits(1, 8))
  {
    hide LowBits;
    SmallBytes();
    LowBitsJoin(0, 3, 15, 5);
    TwoByteBits(0x78, 0x01);
    JoinThree(LowBits(0, 3), LowBits(15, 5), LowBits(1, 8));
  }

  lemma TwoByteBits(a: nat, b: nat)
    ensures ByteBits([a, b]) == LowBits(a, 8) + LowBits(b, 8)
  {
    hide LowBits;
    assert BitsOfBytes([a, b], 0, 0) == [];
    BitsOfBytesSnoc([], a);
    BitsOfBytesSnoc([a], b);
    assert [] + [a] == [a] && [a] + [b] == [a, b];
    assert [] + LowBits(a, 8) == LowBits(a, 8);
  }

  /** A byte of a stored block's length, behind the header's last byte, and its complement: the second is 0xFE, the third the
      complement of the first. */
  ghost predicate Complements(rest: Word) {
    |rest| >= 24 && Opposite(LowBits(1, 8) + rest[..8], rest[8..24])
  }

  /** How many bytes such a block would have. */
  function FalseLength(rest: Word): nat
    requires |rest| >= 8
  {
    1 + 256 * Reversed(rest[..8])
  }

  lemma FalseLengthIs(rest: Word)
    requires |rest| >= 8
    ensures Reversed(LowBits(1, 8) + rest[..8]) == FalseLength(rest)
  {
    hide LowBits, Reversed;
    SmallBytes();
    ReversedOfLowBits(1, 8);
    ReversedJoin(LowBits(1, 8), rest[..8]);
  }

  lemma StoredMisread(rest: Word)
    ensures ReadStored(LowBits(1, 8) + rest) == Fail <==> !(Complements(rest) && |rest| >= 24 + 8 * FalseLength(rest))
  {
    hide LowBits, Reversed, Opposite, BytesOf;
    var b := LowBits(1, 8) + rest;
    if |rest| >= 24 {
      assert b[..16] == LowBits(1, 8) + rest[..8] && b[16..][..16] == rest[8..24] && |b[16..][16..]| == |rest| - 24;
      FalseLengthIs(rest);
      OppositeSum(b[..16], rest[8..24]);
      SmallBytes();
    } else {
      assert |b| < 16 || |b[16..]| < 16;
    }
  }

  /** At a byte boundary the second header is read as the start of a stored block. There is none exactly if what stands
      behind the header is no complement of it, or too short. */
  lemma SecondHeaderReads(rest: Word)
    requires Whole(|rest|)
    ensures ReadBlock(ByteBits(ZLIB_HEADER) + rest) == NoBlock <==> !(Complements(rest) && |rest| >= 24 + 8 * FalseLength(rest))
  {
    hide LowBits, ByteBits, ReadStored, Pow2, Complements, FalseLength;
    var first, more := LowBits(15, 5), LowBits(1, 8) + rest;
    HeaderSplit();
    RegroupHeader(LowBits(0, 3), first, LowBits(1, 8), rest);
    SmallBytes();
    GetBitsOf(0, 3, first + more);
    assert Aligned(first + more) == more;
    StoredMisread(rest);
  }

  lemma RegroupHeader(a: Word, b: Word, c: Word, d: Word)
    ensures (a + (b + c)) + d == a + (b + (c + d))
  {
  }

  // ----- blocks that no header can stand before

  /** Whatever follows these bits, they are no complement of the header before them. */
  ghost predicate Unfit(bits: Word) {
    forall more: Word :: !Complements(bits + more)
  }

  lemma FitBits(rest: Word)
    requires Complements(rest)
    ensures forall i :: 8 <= i < 16 ==> rest[i] == (i > 8)
    ensures forall i :: 16 <= i < 24 ==> rest[i] == !rest[i - 16]
  {
    hide LowBits;
    var b, c := LowBits(1, 8) + rest[..8], rest[8..24];
    OneThenZeros();
    forall i | 8 <= i < 16 ensures rest[i] == (i > 8) { assert c[i - 8] == rest[i] && b[i - 8] == LowBits(1, 8)[i - 8]; }
    forall i | 16 <= i < 24 ensures rest[i] == !rest[i - 16] { assert c[i - 8] == rest[i] && b[i - 8] == rest[i - 16]; }
  }

  lemma OneThenZeros()
    ensures forall i :: 0 <= i < 8 ==> LowBits(1, 8)[i] == (i == 0)
  {
    ZeroBits(7);
    assert LowBits(1, 8) == [true] + LowBits(0, 7);
  }

  lemma {:induction false} ReversedOnes(word: Word)
    requires forall i :: 0 <= i < |word| ==> word[i]
    ensures Reversed(word) == Pow2(|word|) - 1
  {
    if word != [] { ReversedOnes(word[1..]); }
  }

  /** A dynamic block would have to announce 31 distance codes. */
  lemma DynamicUnfit(last: bool, bits: Word)
    requires LowBits(2, 2) <= bits && FewDistances(bits[2..])
    ensures Unfit([last] + bits)
  {
    hide LowBits, Reversed, Complements;
    forall more: Word ensures !Complements(([last] + bits) + more) {
      var rest := ([last] + bits) + more;
      if Complements(rest) {
        FitBits(rest);
        var five := bits[2..][5..10];
        assert forall i :: 0 <= i < 5 ==> five[i] == rest[8 + i];
        assert five == [false] + five[1..];
        ReversedOnes(five[1..]);
        ReversedJoin([false], five[1..]);
        FewSmall();
      }
    }
  }

  lemma FewSmall()
    ensures Pow2(4) == 16 && Pow2(1) == 2 && Reversed([false]) == 0
  {
  }

  /** A stored block would have to be longer than the window. */
  lemma StoredUnfit(last: bool, bytes: seq<nat>)
    requires |bytes| < 0xFEFE
    ensures Unfit([last] + StoredBits(bytes, 1))
  {
    hide LowBits, Reversed, Complements, ByteBits;
    var n := |bytes|;
    var front, len := [last] + (LowBits(0, 2) + LowBits(0, 5)), LowBits(n, 16);
    var tail := LowBits(65535 - n, 16) + ByteBits(bytes);
    forall more: Word ensures !Complements(([last] + StoredBits(bytes, 1)) + more) {
      var rest := ([last] + StoredBits(bytes, 1)) + more;
      assert rest == front + (len + (tail + more));
      if Complements(rest) {
        FitBits(rest);
        ZeroBits(2);
        ZeroBits(5);
        assert forall i :: 1 <= i < 8 ==> !front[i];
        assert len == rest[8..24];
        assert forall i :: 0 <= i < 8 ==> rest[i] == front[i];
        forall i | 1 <= i < 8 ensures len[i] { assert len[i] == rest[8 + i]; }
        forall i | 9 <= i < 16 ensures len[i] { assert len[i] == rest[8 + i] == !rest[8 + i - 16]; }
        LongLength(len);
        SmallBytes();
        ReversedOfLowBits(n, 16);
      }
    }
  }

  lemma LongLength(len: Word)
    requires |len| == 16 && (forall i :: 1 <= i < 8 ==> len[i]) && forall i :: 9 <= i < 16 ==> len[i]
    ensures Reversed(len) >= 0xFEFE
  {
    hide Reversed;
    var low, high := len[..8], len[8..];
    assert len == low + high;
    ReversedJoin(low, high);
    SevenOnes(low);
    SevenOnes(high);
    assert Pow2(8) == 256;
  }

  lemma SevenOnes(byte: Word)
    requires |byte| == 8 && forall i :: 1 <= i < 8 ==> byte[i]
    ensures Reversed(byte) >= 254
  {
    ReversedOnes(byte[1..]);
    assert Pow2(7) == 128;
  }

  lemma EndCode()
    ensures Used(FixedMain(), END_OF_BLOCK) && CodeWord(FixedMain(), END_OF_BLOCK) == LowBits(0, 7)
  {
    hide CountOf, First;
    FixedMainFirst(7);
    CountNone(FixedMain()[..256], 7);
    assert Code(FixedMain(), END_OF_BLOCK) == 0;
    ZeroBits(7);
  }

  /** A static block without tokens ends with zeros. */
  lemma EmptyUnfit(last: bool)
    requires AllCoverable([], FixedMain(), FixedDist()) && Used(FixedMain(), END_OF_BLOCK)
    ensures Unfit([last] + (LowBits(1, 2) + BlockBits([], FixedMain(), FixedDist())))
  {
    hide FixedMain, FixedDist, LowBits, CodeWord, Complements;
    var bits := LowBits(1, 2) + BlockBits([], FixedMain(), FixedDist());
    EndCode();
    ZeroBits(7);
    assert [] + LowBits(0, 7) == LowBits(0, 7);
    assert !bits[8];
    forall more: Word ensures !Complements(([last] + bits) + more) {
      var rest := ([last] + bits) + more;
      assert rest[9] == bits[8];
      if Complements(rest) { FitBits(rest); }
    }
  }

  // ----- streams that cannot be saved

  /** No stream that starts with these bits is inflated. */
  ghost predicate Doomed(bits: Word) {
    forall bytes: seq<nat> :: Bytes(bytes) && bits <= ByteBits(bytes) ==> InflateZlib(bytes) == None
  }

  /** A zlib stream, sound so far, has come to a byte boundary; then a second header, and a block that does not fit it. */
  lemma SecondHeaderDooms(body: Word, out: seq<nat>, rest: Word)
    requires LeadsTo(body, out) && Whole(|body|) && Unfit(rest)
    ensures Doomed(FrontBits(true) + (body + (ByteBits(ZLIB_HEADER) + rest)))
  {
    hide LowBits, ByteBits, ReadBlock, LeadsTo, Complements, InflateZlib, Bytes;
    var front := FrontBits(true) + (body + (ByteBits(ZLIB_HEADER) + rest));
    forall bytes: seq<nat> | Bytes(bytes) && front <= ByteBits(bytes) ensures InflateZlib(bytes) == None {
      DoomedBytes(body, out, rest, bytes, ByteBits(bytes)[|front|..]);
    }
  }

  lemma DoomedBytes(body: Word, out: seq<nat>, rest: Word, bytes: seq<nat>, more: Word)
    requires LeadsTo(body, out) && Whole(|body|) && Unfit(rest) && Bytes(bytes)
    requires ByteBits(bytes) == (FrontBits(true) + (body + (ByteBits(ZLIB_HEADER) + rest))) + more
    ensures InflateZlib(bytes) == None
  {
    hide LowBits, ByteBits, ReadBlock, LeadsTo, Complements, FalseLength, InflateZlib, InflateFrom, Bytes, GoodHeader;
    var behind := ByteBits(ZLIB_HEADER) + (rest + more);
    RegroupDoomed(FrontBits(true), body, ByteBits(ZLIB_HEADER), rest, more);
    HeaderIsGood();
    HeaderIsThere(bytes, body + behind);
    SecondHeaderReads(rest + more);
    LeadsAt(body, out, behind);
    NoBlockBreaks(behind, out);
    BrokenStream(bytes);
  }

  lemma NoBlockBreaks(bits: Word, out: seq<nat>)
    requires ReadBlock(bits) == NoBlock
    ensures InflateFrom(bits, out) == Broken
  {
    hide ReadBlock;
  }

  lemma BrokenStream(bytes: seq<nat>)
    requires |bytes| >= 2 && InflateFrom(ByteBits(bytes)[16..], []) == Broken
    ensures InflateZlib(bytes) == None
  {
    hide InflateFrom;
  }

  lemma RegroupDoomed(a: Word, b: Word, c: Word, d: Word, e: Word)
    ensures (a + (b + (c + d))) + e == a + (b + (c + (d + e)))
  {
  }

  // ----- the writer, when its count of flushes has come round

  /** A zlib stream of 2^32 flushes, sound so far, the last of which came to a byte boundary. */
  ghost predicate AtWrap(writer: BlockWriter)
    reads writer, writer.w
  {
    writer.Valid() && writer.intact && writer.w.count == 0 && writer.zlib && writer.flushes == 0x1_0000_0000
  }

  lemma WrapDooms(before: Word, body: Word, out: seq<nat>, base: Word, last: bool, bits: Word, all: Word)
    requires before == FrontBits(true) + body && LeadsTo(body, out) && Whole(|before|)
    requires base == before + FrontBits(true) && base + [last] + bits <= all && Unfit([last] + bits)
    ensures Doomed(all)
  {
    hide ByteBits, LeadsTo, Unfit, InflateZlib, Bytes;
    var front := FrontBits(true) + (body + (ByteBits(ZLIB_HEADER) + ([last] + bits)));
    HeaderIsGood();
    SecondHeaderDooms(body, out, [last] + bits);
    RegroupWrapped(FrontBits(true), body, [last], bits);
    LongerIsDoomed(front, all);
  }

  lemma RegroupWrapped(a: Word, b: Word, d: Word, e: Word)
    ensures ((a + b) + a) + d + e == a + (b + (a + (d + e)))
  {
  }

  lemma LongerIsDoomed(bits: Word, all: Word)
    requires Doomed(bits) && bits <= all
    ensures Doomed(all)
  {
  }

  /** The next flush puts out a dynamic block, or a static one without tokens: whatever is put out behind it, the stream is
      refused. */
  method CodedAtWrap(writer: BlockWriter, codes: CodeBuffer, static_: bool, flush: Flush, adler: nat, ghost tokens: seq<Token>)
      returns (fits: bool)
    requires AtWrap(writer) && codes.mainCount.Length == 288 && codes.distCount.Length == 32
    requires codes.mainCount !in writer.Arrays() && codes.distCount !in writer.Arrays() && codes.mainCount != codes.distCount
    requires AllCodable(tokens) && codes.next <= codes.buf.Length && codes.buf[..codes.next] == Layout(tokens)
    requires if static_ then tokens == []
      else TokensCounted(codes.mainCount[..], codes.distCount[..], tokens) && |tokens| + 1 < 65536
    requires ApplyBlock(writer.expanded, Coded(tokens)).Some?
    requires flush == Finish ==> adler == Checksum(1, ApplyBlock(writer.expanded, Coded(tokens)).value)
    modifies writer, writer.w, writer.Arrays(), codes.mainCount
    ensures Doomed(writer.w.Bits()) && !writer.intact
    ensures writer.flushes == 0x1_0000_0001 && writer.expanded == ApplyBlock(old(writer.expanded), Coded(tokens)).value
    ensures flush == Finish ==> Bytes(writer.w.out) && writer.w.Bits() == ByteBits(writer.w.out)
  {
    hide LowBits, ByteBits, LeadsTo, Says, Checksum, TailBits, BlockBits, FixedMain, FixedDist, AllCoverable, Bytes, MarkBits,
      GoodMark, TokensCounted, AllCodable, Layout, FewDistances, Unfit, Doomed, ApplyBlock;
    ghost var body, out, before := writer.body, writer.expanded, writer.w.Bits();
    var from, base := writer.Begin(flush == Finish);
    ghost var bits;
    fits, bits := writer.CompressBlock(codes, static_, from, tokens, (|base| + 1) % 8);
    if static_ { EmptyUnfit(flush == Finish); } else { DynamicUnfit(flush == Finish, bits); }
    writer.EndFlush(flush, adler, from, base, bits, Coded(tokens));
    WrapDooms(before, body, out, base, flush == Finish, bits, writer.w.Bits());
    MarkIsBytes(Mark(writer.w.out, writer.w.buffer, writer.w.count));
  }

  lemma MarkIsBytes(m: Mark)
    requires GoodMark(m)
    ensures Bytes(m.out)
  {
  }

  /** The same for a stored block. */
  method StoredAtWrap(writer: BlockWriter, bytes: seq<nat>, flush: Flush, adler: nat)
    requires AtWrap(writer) && Bytes(bytes) && |bytes| <= 32768
    requires flush == Finish ==> adler == Checksum(1, writer.expanded + bytes)
    modifies writer, writer.w
    ensures Doomed(writer.w.Bits()) && !writer.intact
  {
    hide LowBits, ByteBits, LeadsTo, Says, Checksum, TailBits, Bytes, MarkBits, GoodMark, Unfit, Doomed, StoredBits;
    ghost var body, out, before := writer.body, writer.expanded, writer.w.Bits();
    var from, base := writer.Begin(flush == Finish);
    ghost var bits := writer.PutStored(bytes, 1);
    StoredUnfit(flush == Finish, bytes);
    writer.EndFlush(flush, adler, from, base, bits, Stored(bytes));
    WrapDooms(before, body, out, base, flush == Finish, bits, writer.w.Bits());
  }

  /** A flush without data. */
  method EmptyFlush(writer: BlockWriter, codes: CodeBuffer)
    requires writer.Valid() && writer.intact && !writer.Spoiling()
    requires codes.mainCount.Length == 288 && codes.distCount.Length == 32
    requires codes.mainCount !in writer.Arrays() && codes.distCount !in writer.Arrays() && codes.mainCount != codes.distCount
    requires codes.next <= codes.buf.Length && codes.buf[..codes.next] == Layout([])
    modifies writer, writer.w, writer.Arrays(), codes.mainCount
    ensures writer.Valid() && writer.intact && writer.w.count == 0
    ensures writer.flushes == old(writer.flushes) + 1 && writer.expanded == old(writer.expanded)
  {
    hide LowBits, ByteBits, LeadsTo, Says, BlockBits, FixedMain, FixedDist, AllCoverable, Bytes, MarkBits, GoodMark, Layout,
      FrontBits, TailBits, Decompress, FewDistances;
    var from, base := writer.Begin(false);
    var fits, bits := writer.CompressBlock(codes, true, from, [], (|base| + 1) % 8);
    NothingMore(writer.expanded);
    EmptyBits();
    writer.EndFlush(SyncFlush, 1, from, base, bits, Coded([]));
  }

  lemma EmptyBits()
    requires AllCoverable([], FixedMain(), FixedDist()) && Used(FixedMain(), END_OF_BLOCK)
    ensures |LowBits(1, 2) + BlockBits([], FixedMain(), FixedDist())| == 9
  {
    hide FixedMain, FixedDist, LowBits, CodeWord;
    EndCode();
  }

  /** The count does come round: 2^32 flushes without data bring a new writer there, and ending the stream then gives bytes
      that are refused, though they should stand for no data at all. */
  method EmptyFlushes() returns (writer: BlockWriter)
    ensures writer.zlib && writer.flushes == 0x1_0000_0001 && writer.expanded == [] && Bytes(writer.w.out)
    ensures InflateZlib(writer.w.out) == None
  {
    hide ByteBits, Checksum, Bytes, TokensCounted, Layout, Holds, Doomed, InflateZlib, LeadsTo, MarkBits, GoodMark;
    writer := new BlockWriter(true, false);
    var codes := new CodeBuffer();
    codes.CountsFit();
    codes.Seal();
    var f := 0;
    while f < 0x1_0000_0000
      invariant 0 <= f <= 0x1_0000_0000
      invariant writer.Valid() && writer.intact && writer.flushes == f && writer.expanded == [] && writer.w.count == 0
      invariant codes.next <= codes.buf.Length && codes.buf[..codes.next] == Layout([])
    {
      EmptyFlush(writer, codes);
      f := f + 1;
    }
    NothingMore(writer.expanded);
    var fits := CodedAtWrap(writer, codes, true, Finish, 1, []);
    AllDoomed(writer.w.out);
  }

  lemma NothingMore(out: seq<nat>)
    ensures ApplyBlock(out, Coded([])) == Some(out) && Checksum(1, []) == 1
  {
  }

  lemma AllDoomed(bytes: seq<nat>)
    requires Doomed(ByteBits(bytes)) && Bytes(bytes)
    ensures InflateZlib(bytes) == None
  {
  }
}
