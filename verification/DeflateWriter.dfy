/** The bits that flushing a block puts out: header, the block in one of its three forms, and what ends the flush. */
module DeflateWriter {
  import opened Sequences
  import opened Wrappers
  import opened Arithmetic
  import opened PrefixCodes
  import opened CanonicalCodes
  import opened BitBuffers
  import opened LzTokens
  import opened LzCodeBuffer
  import opened DynamicHeader
  import opened TableCost
  import opened DeflateBlock
  import opened DeflateCost
  import opened Inflate
  import opened Adler32
  import LengthLimit

  /** Bytes from here on find no room in the output buffer. */
  const OUT_BUF_LIMIT: nat := CODE_BUF_SIZE * 13 / 10 - 16

  datatype Flush = NoFlush | SyncFlush | FullFlush | Finish

  /** Deflate with a window of 32 KB, fastest level. */
  const ZLIB_HEADER: seq<nat> := [0x78, 0x01]

  /** The highest of four bytes, and the others moved up. */
  function TopByte(a: nat): (b: nat)
    ensures b < 256
  {
    a / 0x100_0000 % 0x100
  }

  function NextByte(a: nat): nat {
    a * 0x100 % TWO_TO_32
  }

  function ChecksumBytes(adler: nat): (bytes: seq<nat>)
    ensures |bytes| == 4 && Bytes(bytes)
  {
    var a1 := NextByte(adler);
    var a2 := NextByte(a1);
    [TopByte(adler), TopByte(a1), TopByte(a2), TopByte(NextByte(a2))]
  }

  lemma NextByteIs(a: nat)
    requires a < TWO_TO_32
    ensures a >= TopByte(a) * 0x100_0000 && NextByte(a) == 0x100 * (a - TopByte(a) * 0x100_0000) && NextByte(a) < TWO_TO_32
  {
    var top: nat := a / 0x100_0000;
    var low: nat := a - top * 0x100_0000;
    assert a * 0x100 == low * 0x100 + top * TWO_TO_32;
  }

  /** The checksum goes out with its highest byte first. */
  lemma ChecksumIsBigEndian(adler: nat)
    requires adler < TWO_TO_32
    ensures BigEndian(ChecksumBytes(adler)) == adler
  {
    hide TopByte, NextByte;
    var a1 := NextByte(adler);
    var a2 := NextByte(a1);
    NextByteIs(adler);
    NextByteIs(a1);
    NextByteIs(a2);
    NextByteIs(NextByte(a2));
    LowestByte(NextByte(a2));
  }

  lemma LowestByte(a: nat)
    requires a < TWO_TO_32
    ensures TopByte(a) * 0x100_0000 <= a < TopByte(a) * 0x100_0000 + 0x100_0000
  {
  }

  /** The checksum in a tail that starts with the rest of a byte. */
  lemma TrailerIs(phase: nat, adler: nat)
    requires phase < 8 && adler < TWO_TO_32
    ensures Trailer(Fill(phase) + ByteBits(ChecksumBytes(adler))) == Some(adler)
  {
    hide BytesOf, LowBits, ByteBits, BigEndian, ChecksumBytes;
    var bytes := ChecksumBytes(adler);
    assert Aligned(Fill(phase) + ByteBits(bytes)) == ByteBits(bytes) + [];
    BytesBack(bytes, []);
    ChecksumIsBigEndian(adler);
  }

  lemma HeaderIsGood()
    ensures GoodHeader(ZLIB_HEADER[0], ZLIB_HEADER[1]) && Bytes(ZLIB_HEADER) && |ByteBits(ZLIB_HEADER)| == 16
  {
  }

  /** Bytes whose bits start with the header's. */
  lemma HeaderIsThere(bytes: seq<nat>, rest: Word)
    requires Bytes(bytes) && ByteBits(bytes) == ByteBits(ZLIB_HEADER) + rest
    ensures |bytes| >= 2 && GoodHeader(bytes[0], bytes[1]) && ByteBits(bytes)[16..] == rest
  {
    hide LowBits, BitsOfBytes, Reversed;
    HeaderIsGood();
    assert |ByteBits(bytes)| >= 16;
    BytesBack(bytes, []);
    BytesBack(ZLIB_HEADER, rest);
    assert ByteBits(bytes) + [] == ByteBits(bytes);
    TwoBytes(ByteBits(bytes), |bytes|);
    TwoBytes(ByteBits(bytes), 2);
  }

  lemma TwoBytes(bits: Word, n: nat)
    requires n >= 2 && 8 * n <= |bits|
    ensures BytesOf(bits, n)[0] == Reversed(bits[..8]) && BytesOf(bits, n)[1] == Reversed(bits[8..][..8])
  {
  }

  function FrontBits(present: bool): (word: Word)
    ensures |word| == if present then 16 else 0
  {
    if present then ByteBits(ZLIB_HEADER) else []
  }

  ghost function Decompress(zlib: bool, bytes: seq<nat>): Option<seq<nat>> {
    if zlib then InflateZlib(bytes) else InflateRaw(bytes)
  }

  /** What follows the final block. */
  function TailBits(phase: nat, zlib: bool, adler: nat): (word: Word)
    requires phase < 8
  {
    Fill(phase) + if zlib then ByteBits(ChecksumBytes(adler)) else []
  }

  function LengthBits(len: nat): (word: Word)
    requires len < 65536
    ensures |word| == 32
  {
    LowBits(len, 16) + LowBits(65535 - len, 16)
  }

  lemma SmallBytes()
    ensures Pow2(1) == 2 && Pow2(2) == 4 && Pow2(3) == 8 && Pow2(8) == 256 && Pow2(16) == 65536
    ensures forall n :: 0 <= n <= 8 ==> Pow2(n) > 0
  {
    assert Pow2(4) == 16;
    assert Pow2(8) == 256;
    LengthLimit.Pow32();
  }

  // ----- the writer

  class BlockWriter {
    const w: BitWriter
    const mainSizes: array<nat>
    const mainCodes: array<nat>
    const distSizes: array<nat>
    const distCodes: array<nat>
    const zlib: bool
    const forceStatic: bool
    /** Flushes so far, modulo 2^32. */
    var blockIndex: nat
    ghost var flushes: nat
    /** The blocks' bits, what they inflate to, and whether nothing has spoiled the stream: no byte found no room,
        and no second header was put out. */
    ghost var body: Word
    ghost var expanded: seq<nat>
    ghost var intact: bool

    ghost predicate Separate() {
      && mainSizes.Length == mainCodes.Length == 288 && distSizes.Length == distCodes.Length == 32
      && mainSizes !in {mainCodes, distSizes, distCodes} && mainCodes !in {distSizes, distCodes} && distSizes != distCodes
    }

    ghost function Arrays(): set<array<nat>> {
      {mainSizes, mainCodes, distSizes, distCodes}
    }

    ghost function Header(): Word
      reads this
    {
      FrontBits(zlib && flushes > 0)
    }

    /** Between flushes of a stream that has not ended. */
    ghost predicate Valid()
      reads this, w
    {
      && Separate() && w.Valid() && blockIndex == flushes % 0x1_0000_0000
      && (flushes == 0 ==> w.Bits() == [])
      && (intact ==> w.Bits() == Header() + body && LeadsTo(body, expanded))
    }

    constructor (zlibWrapping: bool, staticOnly: bool)
      ensures Valid() && expanded == [] && flushes == 0 && intact && zlib == zlibWrapping && forceStatic == staticOnly && w.count == 0 && w.out == []
      ensures fresh(w) && fresh(mainSizes) && fresh(mainCodes) && fresh(distSizes) && fresh(distCodes)
    {
      hide LeadsTo, LowBits, BitsOfBytes, Pow2, ByteBits;
      w := new BitWriter();
      mainSizes, mainCodes := new nat[288](_ => 0), new nat[288](_ => 0);
      distSizes, distCodes := new nat[32](_ => 0), new nat[32](_ => 0);
      zlib, forceStatic, blockIndex, flushes, body, expanded, intact := zlibWrapping, staticOnly, 0, 0, [], [], true;
      new;
      NothingLeads();
    }

    /** The header goes out again when the count of flushes comes round to 0. */
    ghost predicate Spoiling()
      reads this
    {
      zlib && blockIndex == 0 && flushes > 0
    }

    /** Within a flush, `base` is what was put in front of the block's flag. */
    ghost predicate InBlock(base: Word)
      reads this
    {
      && Separate() && blockIndex == flushes % 0x1_0000_0000
      && (intact && !Spoiling() ==> base == FrontBits(zlib) + body && LeadsTo(body, expanded))
    }

    /** The stream has ended: its bytes decompress to what went in. */
    ghost predicate Ended()
      reads this, w
    {
      w.Valid() && w.count == 0 && (intact ==> Decompress(zlib, w.out) == Some(expanded))
    }

    /** Before and behind a flush its bytes are bytes. */
    lemma OutIsGood()
      requires Valid() || Ended()
      ensures w.count < 8 && GoodMark(w.Now())
    {
    }

    lemma EndedMeans()
      requires Ended()
      ensures intact ==> Decompress(zlib, w.out) == Some(expanded)
    {
    }

    /** The zlib header before the first block, and the flag of the last one. */
    method Begin(last: bool) returns (from: nat, ghost base: Word)
      requires Valid()
      modifies w
      ensures w.Valid() && w.Bits() == base + [last] && from == |old(w.out)|
      ensures base == old(w.Bits()) + FrontBits(zlib && blockIndex == 0)
      ensures InBlock(base) && |base| <= 8 * from + 23
    {
      hide LowBits, BitsOfBytes, Pow2, LeadsTo, ByteBits;
      SmallBytes();
      from := |w.out|;
      ghost var before := w.Bits();
      if zlib && blockIndex == 0 {
        NoBytesPut(ZLIB_HEADER, before);
        w.PutBits(ZLIB_HEADER[0], 8);
        PutByteIs(ZLIB_HEADER, 0, before);
        w.PutBits(ZLIB_HEADER[1], 8);
        PutByteIs(ZLIB_HEADER, 1, before);
        assert ZLIB_HEADER[..2] == ZLIB_HEADER;
      } else {
        assert before + [] == before;
      }
      base := w.Bits();
      OneBit(last);
      w.PutBits(if last then 1 else 0, 1);
    }

    /** Whether all bytes of the flush had room. */
    function HadRoom(from: nat): bool
      reads w
    {
      |w.out| < from + OUT_BUF_LIMIT
    }

    /** Puts the recorded tokens as a static or dynamic block. */
    method CompressBlock(codes: CodeBuffer, static_: bool, from: nat, ghost tokens: seq<Token>, ghost phase: nat)
        returns (fits: bool, ghost bits: Word)
      requires Separate() && w.Valid() && codes.mainCount.Length == 288 && codes.distCount.Length == 32
      requires codes.mainCount !in Arrays() && codes.distCount !in Arrays() && codes.mainCount != codes.distCount
      requires AllCodable(tokens) && codes.next <= codes.buf.Length && codes.buf[..codes.next] == Layout(tokens)
      requires !static_ ==> TokensCounted(codes.mainCount[..], codes.distCount[..], tokens) && |tokens| + 1 < 65536
      modifies w, mainSizes, mainCodes, distSizes, distCodes, codes.mainCount
      ensures w.Valid() && w.Bits() == old(w.Bits()) + bits && Says(bits, phase, Coded(tokens))
      ensures fits == HadRoom(from)
      ensures static_ ==> AllCoverable(tokens, FixedMain(), FixedDist()) && Used(FixedMain(), END_OF_BLOCK)
      ensures static_ ==> bits == LowBits(1, 2) + BlockBits(tokens, FixedMain(), FixedDist())
      ensures !static_ ==> LowBits(2, 2) <= bits && FewDistances(bits[2..])
      ensures CodedBits(|bits|, codes.next)
    {
      hide FewDistances, LowBits, BitsOfBytes, Says, DynamicSays, StaticSays, TokensCounted, Layout, AllCodable, FixedMain, FixedDist,
        BlockBits, AllCoverable, WellBuilt;
      var coded := codes.ReadTokens(tokens);
      ghost var before := w.Bits();
      if static_ {
        bits := CompressStaticBlock(coded, mainSizes, mainCodes, distSizes, distCodes, w);
        StaticBlockBits(tokens);
        StaticBlockSays(bits, phase, tokens);
        JoinThree(before, LowBits(1, 2), bits);
        bits := LowBits(1, 2) + bits;
      } else {
        ghost var mc, dc := codes.mainCount[..], codes.distCount[..];
        bits := CompressDynamicBlock(codes, coded, mainSizes, mainCodes, distSizes, distCodes, w);
        DynamicBlockBits(tokens, mc, dc, mainSizes[..], distSizes[..]);
        DynamicBlockSays(bits, phase, tokens);
        JoinThree(before, LowBits(2, 2), bits);
        assert (LowBits(2, 2) + bits)[2..] == bits;
        bits := LowBits(2, 2) + bits;
      }
      fits := |w.out| < from + OUT_BUF_LIMIT;
    }

    /** Fills up the last byte and puts a length and its complement. */
    method PutLengths(length: nat)
      requires w.Valid() && length < 65536
      modifies w
      ensures w.Valid() && w.Bits() == old(w.Bits()) + (Fill(old(w.count)) + LengthBits(length)) && w.count == 0
    {
      hide LowBits, BitsOfBytes, Pow2;
      SmallBytes();
      ghost var before := w.Bits();
      FillUp();
      var len := length;
      w.PutBits(len, 16);
      len := 65535 - len;
      w.PutBits(len, 16);
      JoinFour(before, Fill(old(w.count)), LowBits(length, 16), LowBits(65535 - length, 16));
    }

    method FillUp()
      requires w.Valid()
      modifies w
      ensures w.Valid() && w.Bits() == old(w.Bits()) + Fill(old(w.count)) && w.count == 0
    {
      hide LowBits, BitsOfBytes, Pow2;
      SmallBytes();
      ghost var before := w.Bits();
      if w.count != 0 {
        w.PutBits(0, 8 - w.count);
      } else {
        assert before + [] == before;
      }
    }

    /** Puts bytes as they are. */
    method PutStored(bytes: seq<nat>, ghost phase: nat) returns (ghost bits: Word)
      requires w.Valid() && Bytes(bytes) && |bytes| < 65536 && phase == w.count
      modifies w
      ensures w.Valid() && w.Bits() == old(w.Bits()) + bits && Says(bits, phase, Stored(bytes))
      ensures bits == StoredBits(bytes, phase)
      ensures |bits| <= 8 * |bytes| + 41
    {
      hide LowBits, BitsOfBytes, Pow2, Says, ByteBits, Fill, LengthBits;
      SmallBytes();
      ghost var before := w.Bits();
      w.PutBits(0, 2);
      PutLengths(|bytes|);
      ghost var fore := w.Bits();
      NoBytesPut(bytes, fore);
      for i := 0 to |bytes|
        invariant w.Valid() && w.Bits() == fore + ByteBits(bytes[..i])
      {
        w.PutBits(bytes[i], 8);
        PutByteIs(bytes, i, fore);
      }
      bits := StoredBits(bytes, phase);
      RegroupStoredBits(before, bytes, phase);
      StoredLength(bytes, phase);
      FillIsShort((phase + 2) % 8);
      Inflate.StoredSays(bytes, phase);
    }

    /** After four bits that are no flag but an empty stored block's kind comes its length. */
    method PutMarker()
      requires w.Valid()
      modifies w
      ensures w.Valid() && w.Bits() == old(w.Bits()) + ([false] + StoredBits([], (old(w.count) + 1) % 8)) && w.count == 0
    {
      hide LowBits, BitsOfBytes, Pow2, ByteBits, Fill, LengthBits;
      SmallBytes();
      ghost var before := w.Bits();
      w.PutBits(0, 3);
      PutLengths(0);
      RegroupMarker(before, (old(w.count) + 1) % 8);
    }

    /** What ends a stream: the rest of the last byte, and for zlib the checksum. */
    method PutTail(adler: nat)
      requires w.Valid()
      modifies w
      ensures w.Valid() && w.count == 0 && w.Bits() == old(w.Bits()) + TailBits(old(w.count), zlib, adler)
      ensures w.Bits() == ByteBits(w.out) && Bytes(w.out)
    {
      hide LowBits, BitsOfBytes, Pow2, ByteBits, Fill, TopByte, NextByte;
      SmallBytes();
      ghost var before, phase := w.Bits(), w.count;
      FillUp();
      ghost var filled := w.Bits();
      if zlib {
        ghost var bytes := ChecksumBytes(adler);
        NoBytesPut(bytes, filled);
        var a := adler;
        for i := 0 to 4
          invariant w.Valid() && w.Bits() == filled + ByteBits(bytes[..i])
          invariant i < 4 ==> TopByte(a) == bytes[i]
          invariant a == (if i == 0 then adler else if i == 1 then NextByte(adler) else if i == 2 then NextByte(NextByte(adler))
            else if i == 3 then NextByte(NextByte(NextByte(adler))) else a)
        {
          w.PutBits(TopByte(a), 8);
          PutByteIs(bytes, i, filled);
          a := NextByte(a);
        }
        JoinThree(before, Fill(phase), ByteBits(bytes));
      } else {
        assert Fill(phase) + [] == Fill(phase);
      }
      NoneLeft(w.out, w.buffer);
    }

    /** Behind the final block. */
    method EndStream(adler: nat, ghost base: Word, ghost bits: Word, ghost block: Block)
      requires InBlock(base) && w.Valid() && w.Bits() == base + [true] + bits
      requires Says(bits, (|base| + 1) % 8, block) && ApplyBlock(expanded, block).Some?
      requires zlib ==> adler == Checksum(1, ApplyBlock(expanded, block).value)
      modifies w
      ensures w.Valid() && w.count == 0 && |w.Bits()| <= |base| + 1 + |bits| + 42
      ensures base + [true] + bits <= w.Bits()
      ensures w.Bits() == ByteBits(w.out) == base + [true] + bits + TailBits((|base| + 1 + |bits|) % 8, zlib, adler)
      ensures intact && !Spoiling() ==> Decompress(zlib, w.out) == ApplyBlock(expanded, block)
    {
      hide LeadsTo, Says, ByteBits, ApplyBlock, TailBits, Decompress, FrontBits, MarkBits, GoodMark, Bytes;
      ghost var phase := w.count;
      PutTail(adler);
      TailIsShort(phase, zlib, adler);
      if intact && !Spoiling() { LastBlockEnds(zlib, w.out, base, body, expanded, bits, block, phase, adler); }
    }

    /** Behind another block: nothing, or the marker of a flush. */
    method GoOn(flush: Flush, ghost base: Word, ghost bits: Word, ghost block: Block) returns (ghost inner: Word)
      requires InBlock(base) && w.Valid() && w.Bits() == base + [false] + bits
      requires Says(bits, (|base| + 1) % 8, block) && ApplyBlock(expanded, block).Some?
      modifies w
      ensures w.Valid() && |w.Bits()| <= |base| + 1 + |bits| + 42
      ensures old(w.Bits()) <= w.Bits() && (flush != NoFlush ==> w.count == 0)
      ensures intact && !Spoiling() ==> w.Bits() == FrontBits(zlib) + inner && LeadsTo(inner, ApplyBlock(expanded, block).value)
    {
      hide LeadsTo, Says, ByteBits, ApplyBlock, StoredBits, FrontBits, MarkBits, GoodMark, Bytes;
      ghost var phase, before := w.count, w.Bits();
      inner := body + ([false] + bits);
      if intact && !Spoiling() { BlockGoesOn(zlib, base, body, expanded, bits, block); }
      if flush != NoFlush {
        PutMarker();
        MarkerIsShort((phase + 1) % 8);
        if intact && !Spoiling() { MarkerGoesOn(zlib, before, inner, ApplyBlock(expanded, block).value, phase); }
        inner := inner + ([false] + StoredBits([], (phase + 1) % 8));
      }
    }

    /** One flush more. */
    method CountFlush(ghost sound: bool, ghost inner: Word, ghost longer: seq<nat>)
      requires Separate() && w.Valid() && blockIndex == flushes % 0x1_0000_0000
      modifies this
      ensures flushes == old(flushes) + 1 && blockIndex == flushes % 0x1_0000_0000
      ensures intact == sound && body == inner && expanded == longer
      ensures (sound ==> w.Bits() == FrontBits(zlib) + inner && LeadsTo(inner, longer)) ==> Valid()
    {
      hide LeadsTo, FrontBits, MarkBits, GoodMark;
      blockIndex := (blockIndex + 1) % 0x1_0000_0000;
      flushes, intact, body, expanded := flushes + 1, sound, inner, longer;
    }

    /** Ends a flush behind its block. */
    method EndFlush(flush: Flush, adler: nat, ghost from: nat, ghost base: Word, ghost bits: Word, ghost block: Block)
      requires InBlock(base) && w.Valid() && w.Bits() == base + [flush == Finish] + bits
      requires Says(bits, (|base| + 1) % 8, block) && ApplyBlock(expanded, block).Some?
      requires flush == Finish && zlib ==> adler == Checksum(1, ApplyBlock(expanded, block).value)
      modifies this, w
      ensures expanded == ApplyBlock(old(expanded), block).value && flushes == old(flushes) + 1
      ensures intact == (old(intact) && !old(Spoiling()) && HadRoom(from))
      ensures if flush == Finish then Ended() else Valid()
      ensures |w.Bits()| <= |base| + 1 + |bits| + 42
      ensures base + [flush == Finish] + bits <= w.Bits() && (flush != NoFlush ==> w.count == 0)
      ensures flush == Finish ==>
        w.Bits() == ByteBits(w.out) == base + [true] + bits + TailBits((|base| + 1 + |bits|) % 8, zlib, adler)
    {
      hide LeadsTo, Says, ByteBits, ApplyBlock, LowBits, BitsOfBytes, Decompress, MarkBits, TailBits, FrontBits,
        GoodMark, Bytes, Checksum;
      ghost var longer, inner := ApplyBlock(expanded, block).value, body;
      if flush == Finish {
        EndStream(adler, base, bits, block);
      } else {
        inner := GoOn(flush, base, bits, block);
      }
      CountFlush(intact && !Spoiling() && HadRoom(from), inner, longer);
    }
  }

  lemma RegroupBody(base: Word, header: Word, body: Word, last: bool, bits: Word)
    requires base == header + body
    ensures base + [last] + bits == header + (body + ([last] + bits))
  {
  }

  lemma RegroupMarked(header: Word, inner: Word, marker: Word)
    ensures header + inner + marker == header + (inner + marker)
  {
  }

  lemma NoneLeft(out: seq<nat>, buffer: nat)
    ensures MarkBits(Mark(out, buffer, 0)) == ByteBits(out)
  {
    assert ByteBits(out) + [] == ByteBits(out);
  }

  /** An empty stored block changes nothing. */
  lemma MarkerLeads(before: Word, out: seq<nat>, phase: nat)
    requires LeadsTo(before, out) && phase == (|before| + 1) % 8
    ensures LeadsTo(before + ([false] + StoredBits([], phase)), out)
  {
    hide LeadsTo, Says, StoredBits;
    Inflate.StoredSays([], phase);
    assert out + [] == out;
    BlockLeadsOn(before, out, StoredBits([], phase), phase, Stored([]), out);
  }

  /** Behind a final block and its tail, the bytes are a whole stream. */
  lemma StreamEnds(zlib: bool, bytes: seq<nat>, body: Word, out: seq<nat>, bits: Word, phase: nat, block: Block,
                   longer: seq<nat>, fill: nat, adler: nat)
    requires fill < 8 && Bytes(bytes)
    requires ByteBits(bytes) == FrontBits(zlib) + (body + ([true] + bits)) + TailBits(fill, zlib, adler)
    requires LeadsTo(body, out) && Says(bits, phase, block) && phase == (|body| + 1) % 8
    requires ApplyBlock(out, block) == Some(longer) && (zlib ==> adler == Checksum(1, longer))
    ensures Decompress(zlib, bytes) == Some(longer)
  {
    hide LeadsTo, Says, ByteBits, ApplyBlock, InflateFrom, Checksum, ChecksumBytes, Trailer, GoodHeader, Fill;
    var tail := TailBits(fill, zlib, adler);
    var stream := body + ([true] + bits) + tail;
    assert ByteBits(bytes) == FrontBits(zlib) + stream;
    WholeStream(|bytes|, |FrontBits(zlib)|, |body| + 1 + |bits| + |tail|);
    BlockLeads(body, out, true, bits, phase, block, longer, tail);
    if zlib {
      HeaderIsThere(bytes, stream);
      ChecksumFits(longer);
      TrailerIs(fill, adler);
    } else {
      assert [] + stream == stream;
    }
  }

  lemma LastBlockEnds(zlib: bool, bytes: seq<nat>, base: Word, body: Word, out: seq<nat>, bits: Word, block: Block,
                      fill: nat, adler: nat)
    requires fill < 8 && Bytes(bytes) && base == FrontBits(zlib) + body
    requires ByteBits(bytes) == base + [true] + bits + TailBits(fill, zlib, adler)
    requires LeadsTo(body, out) && Says(bits, (|base| + 1) % 8, block)
    requires ApplyBlock(out, block).Some? && (zlib ==> adler == Checksum(1, ApplyBlock(out, block).value))
    ensures Decompress(zlib, bytes) == ApplyBlock(out, block)
  {
    hide LeadsTo, Says, ByteBits, ApplyBlock, TailBits, Decompress, FrontBits, Checksum;
    RegroupBody(base, FrontBits(zlib), body, true, bits);
    StreamEnds(zlib, bytes, body, out, bits, (|base| + 1) % 8, block, ApplyBlock(out, block).value, fill, adler);
  }

  /** Behind another block, and perhaps a flush's marker. */
  lemma BlockGoesOn(zlib: bool, base: Word, body: Word, out: seq<nat>, bits: Word, block: Block)
    requires base == FrontBits(zlib) + body && LeadsTo(body, out) && Says(bits, (|base| + 1) % 8, block)
    requires ApplyBlock(out, block).Some?
    ensures base + [false] + bits == FrontBits(zlib) + (body + ([false] + bits))
    ensures LeadsTo(body + ([false] + bits), ApplyBlock(out, block).value)
  {
    hide LeadsTo, Says, ApplyBlock, FrontBits;
    RegroupBody(base, FrontBits(zlib), body, false, bits);
    BlockLeadsOn(body, out, bits, (|base| + 1) % 8, block, ApplyBlock(out, block).value);
  }

  lemma MarkerGoesOn(zlib: bool, all: Word, inner: Word, out: seq<nat>, phase: nat)
    requires all == FrontBits(zlib) + inner && LeadsTo(inner, out) && phase == |all| % 8
    ensures var marker := [false] + StoredBits([], (phase + 1) % 8);
      && |marker| <= 42 && all + marker == FrontBits(zlib) + (inner + marker) && LeadsTo(inner + marker, out)
  {
    hide LeadsTo, StoredBits, FrontBits;
    MarkerIsShort((phase + 1) % 8);
    MarkerLeads(inner, out, (phase + 1) % 8);
    RegroupMarked(FrontBits(zlib), inner, [false] + StoredBits([], (phase + 1) % 8));
  }

  lemma WholeStream(bytes: nat, header: nat, rest: nat)
    requires 8 * bytes == header + rest && (header == 0 || header == 16)
    ensures Whole(rest)
  {
  }

  lemma TailIsShort(phase: nat, zlib: bool, adler: nat)
    requires phase < 8
    ensures |TailBits(phase, zlib, adler)| <= 39
  {
    FillIsShort(phase);
  }

  lemma MarkerIsShort(phase: nat)
    requires phase < 8
    ensures |StoredBits([], phase)| <= 41
  {
    StoredLength([], phase);
    FillIsShort((phase + 2) % 8);
  }

  lemma FillIsShort(phase: nat)
    requires phase < 8
    ensures |Fill(phase)| <= 7
  {
  }

  lemma RegroupStoredBits(before: Word, bytes: seq<nat>, phase: nat)
    requires phase < 8 && |bytes| < 65536
    ensures before + LowBits(0, 2) + (Fill((phase + 2) % 8) + LengthBits(|bytes|)) + ByteBits(bytes)
      == before + StoredBits(bytes, phase)
  {
    hide LowBits, ByteBits, Fill;
  }

  lemma RegroupMarker(before: Word, phase: nat)
    requires phase < 8
    ensures before + LowBits(0, 3) + (Fill((phase + 2) % 8) + LengthBits(0)) == before + ([false] + StoredBits([], phase))
  {
    hide LowBits, Fill;
    LowestBit(false, 0, 2);
    assert ByteBits([]) == [];
  }

  lemma OneBit(last: bool)
    ensures LowBits(if last then 1 else 0, 1) == [last]
  {
  }

  lemma PutByteIs(bytes: seq<nat>, i: nat, before: Word)
    requires i < |bytes|
    ensures before + ByteBits(bytes[..i]) + LowBits(bytes[i], 8) == before + ByteBits(bytes[..i + 1])
  {
    hide LowBits, BitsOfBytes;
    BitsOfBytesSnoc(bytes[..i], bytes[i]);
    assert bytes[..i + 1] == bytes[..i] + [bytes[i]];
    JoinThree(before, ByteBits(bytes[..i]), LowBits(bytes[i], 8));
  }

  lemma NoBytesPut(bytes: seq<nat>, before: Word)
    ensures before + ByteBits(bytes[..0]) == before && bytes[..|bytes|] == bytes
  {
    assert bytes[..0] == [];
  }
}
