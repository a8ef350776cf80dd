/** What inflating a whole stream gives: blocks (section 3.2.3 of RFC 1951) and the zlib wrapping (section 2.2 of
    RFC 1950). */
module Inflate {
  import opened Sequences
  import opened Wrappers
  import opened Arithmetic
  import opened PrefixCodes
  import opened CanonicalCodes
  import opened BitBuffers
  import opened LzTokens
  import opened DynamicHeader
  import opened DeflateBlock
  import opened Adler32
  import LengthLimit

  // ----- blocks

  datatype Block = Stored(bytes: seq<nat>) | Coded(tokens: seq<Token>)

  function ApplyBlock(out: seq<nat>, block: Block): Option<seq<nat>> {
    match block
    case Stored(bytes) => Some(out + bytes)
    case Coded(tokens) => ExpandFrom(out, tokens)
  }

  function BytesOf(bits: Word, n: nat): (bytes: seq<nat>)
    requires 8 * n <= |bits|
    ensures |bytes| == n
  {
    if n == 0 then [] else [Reversed(bits[..8])] + BytesOf(bits[8..], n - 1)
  }

  /** A length, its complement, and so many bytes. */
  function ReadStored(bits: Word): Read<seq<nat>> {
    match GetBits(bits, 16)
    case Fail => Fail
    case Read(len, bits1) =>
      match GetBits(bits1, 16)
      case Fail => Fail
      case Read(complement, bits2) =>
        if len != 65535 - complement || |bits2| < 8 * len then Fail
        else Read(BytesOf(bits2, len), bits2[8 * len..])
  }

  /** Streams are whole bytes, so what remains says where the next byte starts. */
  function Aligned(bits: Word): Word {
    bits[|bits| % 8..]
  }

  datatype BlockRead = NoBlock | BlockRead(final: bool, block: Block, rest: Word)

  ghost function ReadKind(kind: nat, rest: Word, final: bool): BlockRead {
    if kind == 0 then
      match ReadStored(Aligned(rest))
      case Fail => NoBlock
      case Read(bytes, more) => BlockRead(final, Stored(bytes), more)
    else if kind == 3 then NoBlock
    else
      match if kind == 1 then ReadTokens(rest, FixedMain(), FixedDist()) else InflateDynamic(rest)
      case Fail => NoBlock
      case Read(tokens, more) => BlockRead(final, Coded(tokens), more)
  }

  ghost function ReadBlock(bits: Word): BlockRead {
    match GetBits(bits, 3)
    case Fail => NoBlock
    case Read(head, rest) => ReadKind(head / 2, rest, head % 2 == 1)
  }

  datatype Inflated = Broken | Inflated(out: seq<nat>, rest: Word)

  /** Blocks up to a final one. */
  ghost function InflateFrom(bits: Word, out: seq<nat>): Inflated
    decreases |bits|
  {
    match ReadBlock(bits)
    case NoBlock => Broken
    case BlockRead(final, block, rest) =>
      match ApplyBlock(out, block)
      case None => Broken
      case Some(longer) =>
        if final then Inflated(longer, rest)
        else if |rest| >= |bits| then Broken
        else InflateFrom(rest, longer)
  }

  // ----- zlib streams

  function ByteBits(bytes: seq<nat>): (bits: Word)
    ensures |bits| == 8 * |bytes|
  {
    BitsOfBytes(bytes, 0, |bytes|)
  }

  /** Deflate, no preset dictionary, a correct check. */
  predicate GoodHeader(cmf: nat, flg: nat) {
    (cmf * 256 + flg) % 31 == 0 && flg / 32 % 2 == 0 && cmf % 16 == 8
  }

  function BigEndian(bytes: seq<nat>): nat
    requires |bytes| == 4
  {
    ((bytes[0] * 256 + bytes[1]) * 256 + bytes[2]) * 256 + bytes[3]
  }

  /** The checksum that a stream ends with. */
  function Trailer(bits: Word): Option<nat> {
    var tail := Aligned(bits);
    if |tail| < 32 then None else Some(BigEndian(BytesOf(tail, 4)))
  }

  /** The bytes a zlib stream stands for, if its header and checksum are right. */
  ghost function InflateZlib(bytes: seq<nat>): Option<seq<nat>> {
    if |bytes| < 2 || !GoodHeader(bytes[0], bytes[1]) then None
    else
      match InflateFrom(ByteBits(bytes)[16..], [])
      case Broken => None
      case Inflated(out, rest) =>
        if Trailer(rest) == Some(Checksum(1, out)) then Some(out) else None
  }

  /** A stream without wrapping. */
  ghost function InflateRaw(bytes: seq<nat>): Option<seq<nat>> {
    match InflateFrom(ByteBits(bytes), [])
    case Broken => None
    case Inflated(out, _) => Some(out)
  }

  // ----- what bits of a stream say

  ghost predicate ReadsAs(bits: Word, block: Block, last: bool, more: Word) {
    ReadBlock([last] + bits + more) == BlockRead(last, block, more)
  }

  /** Behind a final flag, these bits stand for a block; phase is how far the flag's end is past a byte boundary. */
  ghost predicate Says(bits: Word, phase: nat, block: Block) {
    forall last: bool, more: Word :: Whole(phase + |bits| + |more|) ==> ReadsAs(bits, block, last, more)
  }

  predicate Whole(n: nat) {
    n % 8 == 0
  }

  ghost predicate GoesOn(bits: Word, out: seq<nat>, more: Word) {
    InflateFrom(bits + more, []) == InflateFrom(more, out)
  }

  /** After these bits an inflater that started with nothing has put out `out`. */
  ghost predicate LeadsTo(bits: Word, out: seq<nat>) {
    forall more: Word :: Whole(|bits| + |more|) ==> GoesOn(bits, out, more)
  }

  lemma NothingLeads()
    ensures LeadsTo([], [])
  {
    hide InflateFrom;
    forall more: Word ensures GoesOn([], [], more) { assert [] + more == more; }
  }

  lemma FirstBlock(bits: Word, out: seq<nat>, last: bool, block: Block, longer: seq<nat>, rest: Word)
    requires ReadBlock(bits) == BlockRead(last, block, rest) && ApplyBlock(out, block) == Some(longer) && |rest| < |bits|
    ensures InflateFrom(bits, out) == if last then Inflated(longer, rest) else InflateFrom(rest, longer)
  {
    hide ReadBlock, ApplyBlock;
  }

  /** One more block, behind its flag. */
  lemma BlockLeads(before: Word, out: seq<nat>, last: bool, bits: Word, phase: nat, block: Block, longer: seq<nat>, more: Word)
    requires LeadsTo(before, out) && Says(bits, phase, block) && ApplyBlock(out, block) == Some(longer)
    requires phase == (|before| + 1) % 8 && Whole(|before| + 1 + |bits| + |more|)
    ensures InflateFrom(before + ([last] + bits) + more, []) == if last then Inflated(longer, more) else InflateFrom(more, longer)
  {
    hide ReadBlock, InflateFrom, ApplyBlock, Whole, LeadsTo, Says;
    var n := |before| + 1;
    SamePhase(phase, n, |bits| + |more|);
    var rest := [last] + bits + more;
    JoinThree(before, [last] + bits, more);
    LeadsAt(before, out, rest);
    SaysAt(bits, phase, block, last, more);
    FirstBlock(rest, out, last, block, longer, more);
  }

  lemma LeadsAt(before: Word, out: seq<nat>, rest: Word)
    requires LeadsTo(before, out) && Whole(|before| + |rest|)
    ensures InflateFrom(before + rest, []) == InflateFrom(rest, out)
  {
    hide InflateFrom;
    assert GoesOn(before, out, rest);
  }

  lemma SaysAt(bits: Word, phase: nat, block: Block, last: bool, more: Word)
    requires Says(bits, phase, block) && Whole(phase + (|bits| + |more|))
    ensures ReadBlock([last] + bits + more) == BlockRead(last, block, more)
  {
    hide ReadBlock;
    assert ReadsAs(bits, block, last, more);
  }

  lemma SamePhase(phase: nat, n: nat, k: nat)
    requires phase == n % 8
    ensures Whole(phase + k) == Whole(n + k)
  {
  }

  lemma BlockLeadsOn(before: Word, out: seq<nat>, bits: Word, phase: nat, block: Block, longer: seq<nat>)
    requires LeadsTo(before, out) && Says(bits, phase, block) && ApplyBlock(out, block) == Some(longer)
    requires phase == (|before| + 1) % 8
    ensures LeadsTo(before + ([false] + bits), longer)
  {
    hide Says, InflateFrom, ApplyBlock, Whole;
    var all := before + ([false] + bits);
    forall more: Word | Whole(|all| + |more|) ensures GoesOn(all, longer, more) {
      assert |all| + |more| == |before| + 1 + |bits| + |more|;
      BlockLeads(before, out, false, bits, phase, block, longer, more);
    }
  }

  // ----- stored blocks

  lemma {:induction false} BytesBack(bytes: seq<nat>, more: Word)
    requires Bytes(bytes)
    ensures BytesOf(ByteBits(bytes) + more, |bytes|) == bytes
    ensures (ByteBits(bytes) + more)[8 * |bytes|..] == more
    decreases |bytes|
  {
    hide LowBits, Reversed, Bytes, BitsOfBytes;
    if bytes == [] {
      assert ByteBits(bytes) == [];
      assert [] + more == more;
    } else {
      TailOfBytes(bytes);
      FirstByte(bytes, more);
      BytesBack(bytes[1..], more);
      assert bytes == [bytes[0]] + bytes[1..];
    }
  }

  lemma TailOfBytes(bytes: seq<nat>)
    requires Bytes(bytes) && bytes != []
    ensures Bytes(bytes[1..]) && bytes[0] < 256
  {
  }

  lemma FirstByte(bytes: seq<nat>, more: Word)
    requires bytes != [] && bytes[0] < 256
    ensures Reversed((ByteBits(bytes) + more)[..8]) == bytes[0]
    ensures (ByteBits(bytes) + more)[8..] == ByteBits(bytes[1..]) + more
  {
    hide LowBits, Reversed, BitsOfBytes;
    SplitBytes(bytes, |bytes|);
    assert Pow2(8) == 256;
    ReversedOfLowBits(bytes[0], 8);
    assert (ByteBits(bytes) + more)[..8] == LowBits(bytes[0], 8);
  }

  lemma {:induction false} SplitBytes(bytes: seq<nat>, k: nat)
    requires 1 <= k <= |bytes|
    ensures BitsOfBytes(bytes, 0, k) == LowBits(bytes[0], 8) + BitsOfBytes(bytes[1..], 0, k - 1)
  {
    hide LowBits;
    BitsOfOneMore(bytes, 0, k - 1, k);
    if k > 1 {
      SplitBytes(bytes, k - 1);
      BitsOfOneMore(bytes[1..], 0, k - 2, k - 1);
      assert ByteAt(bytes, k - 1) == ByteAt(bytes[1..], k - 2);
      JoinThree(LowBits(bytes[0], 8), BitsOfBytes(bytes[1..], 0, k - 2), LowBits(ByteAt(bytes, k - 1), 8));
    } else {
      assert BitsOfBytes(bytes, 0, 0) == [] && BitsOfBytes(bytes[1..], 0, 0) == [];
      assert [] + LowBits(bytes[0], 8) == LowBits(bytes[0], 8) + [];
    }
  }

  lemma ReadStoredOf(bytes: seq<nat>, more: Word)
    requires Bytes(bytes) && |bytes| < 65536
    ensures ReadStored(LowBits(|bytes|, 16) + (LowBits(65535 - |bytes|, 16) + (ByteBits(bytes) + more))) == Read(bytes, more)
  {
    hide LowBits, GetBits, ByteBits, BytesOf, Pow2;
    LengthLimit.Pow32();
    GetBitsOf(|bytes|, 16, LowBits(65535 - |bytes|, 16) + (ByteBits(bytes) + more));
    GetBitsOf(65535 - |bytes|, 16, ByteBits(bytes) + more);
    BytesBack(bytes, more);
  }

  /** The three bits in front of a block. */
  lemma HeadOf(last: bool, kind: nat, rest: Word)
    requires kind < 4
    ensures ReadBlock([last] + LowBits(kind, 2) + rest) == ReadKind(kind, rest, last)
  {
    hide ReadKind, GetBits, LowBits;
    var v := (if last then 1 else 0) + 2 * kind;
    assert Pow2(3) == 8;
    LowestBit(last, kind, 2);
    GetBitsOf(v, 3, rest);
  }

  /** The zeros that fill up a byte. */
  function Fill(phase: nat): (word: Word)
    requires phase < 8
  {
    if phase == 0 then [] else LowBits(0, 8 - phase)
  }

  function StoredBits(bytes: seq<nat>, phase: nat): Word
    requires phase < 8 && |bytes| < 65536
  {
    LowBits(0, 2) + (Fill((phase + 2) % 8) + (LowBits(|bytes|, 16) + (LowBits(65535 - |bytes|, 16) + ByteBits(bytes))))
  }

  lemma StoredLength(bytes: seq<nat>, phase: nat)
    requires phase < 8 && |bytes| < 65536
    ensures |StoredBits(bytes, phase)| == 2 + |Fill((phase + 2) % 8)| + 32 + 8 * |bytes|
    ensures Whole(phase + |StoredBits(bytes, phase)|)
  {
    hide LowBits, ByteBits;
  }

  lemma StoredSays(bytes: seq<nat>, phase: nat)
    requires phase < 8 && Bytes(bytes) && |bytes| < 65536
    ensures Says(StoredBits(bytes, phase), phase, Stored(bytes))
  {
    hide ReadsAs, StoredBits, Whole;
    StoredLength(bytes, phase);
    var bits := StoredBits(bytes, phase);
    forall last: bool, more: Word | Whole(phase + |bits| + |more|) ensures ReadsAs(bits, Stored(bytes), last, more) {
      WholeRest(phase + |bits|, |more|);
      StoredIsRead(bytes, phase, last, more);
    }
  }

  lemma WholeRest(n: nat, k: nat)
    requires Whole(n) && Whole(n + k)
    ensures Whole(k)
  {
  }

  lemma StoredIsRead(bytes: seq<nat>, phase: nat, last: bool, more: Word)
    requires phase < 8 && Bytes(bytes) && |bytes| < 65536 && Whole(|more|)
    ensures ReadsAs(StoredBits(bytes, phase), Stored(bytes), last, more)
  {
    hide ReadBlock, LowBits, ByteBits, ReadStored;
    var fill := Fill((phase + 2) % 8);
    var data := LowBits(|bytes|, 16) + (LowBits(65535 - |bytes|, 16) + (ByteBits(bytes) + more));
    RegroupStored(last, LowBits(0, 2), fill, LowBits(|bytes|, 16), LowBits(65535 - |bytes|, 16), ByteBits(bytes), more);
    HeadOf(last, 0, fill + data);
    assert Aligned(fill + data) == data;
    ReadStoredOf(bytes, more);
  }

  lemma RegroupStored(last: bool, a: Word, b: Word, c: Word, d: Word, e: Word, more: Word)
    ensures [last] + (a + (b + (c + (d + e)))) + more == [last] + a + (b + (c + (d + (e + more))))
  {
  }

  // ----- coded blocks

  lemma RegroupCoded(a: Word, b: Word, c: Word, d: Word)
    ensures a + (b + c) + d == a + b + (c + d)
  {
  }

  lemma StaticBlockSays(bits: Word, phase: nat, tokens: seq<Token>)
    requires StaticSays(bits, tokens)
    ensures Says(LowBits(1, 2) + bits, phase, Coded(tokens))
  {
    hide ReadBlock, ReadTokens, FixedMain, FixedDist, LowBits;
    forall last: bool, more: Word ensures ReadsAs(LowBits(1, 2) + bits, Coded(tokens), last, more) {
      RegroupCoded([last], LowBits(1, 2), bits, more);
      HeadOf(last, 1, bits + more);
    }
  }

  lemma DynamicBlockSays(bits: Word, phase: nat, tokens: seq<Token>)
    requires DynamicSays(bits, tokens)
    ensures Says(LowBits(2, 2) + bits, phase, Coded(tokens))
  {
    hide ReadBlock, InflateDynamic, FixedMain, FixedDist, LowBits;
    forall last: bool, more: Word ensures ReadsAs(LowBits(2, 2) + bits, Coded(tokens), last, more) {
      RegroupCoded([last], LowBits(2, 2), bits, more);
      HeadOf(last, 2, bits + more);
    }
  }
}
