/** The compressor: match finder and lazy parser over the mirrored ring, and what it puts out. */
module LzCompressor {
  import opened Wrappers
  import opened LzTokens
  import opened LzWindow
  import opened LzCodeBuffer
  import opened LzMatch
  import opened Arithmetic
  import opened PrefixCodes
  import opened BitBuffers
  import opened DeflateBlock
  import opened Inflate
  import opened DeflateCost
  import opened DeflateWriter
  import opened DeflateOutlet
  import opened Adler32

  /** Flushes that no call asks for put out at least so many bytes each. */
  const SPACING: nat := 31 * 1024

  // ----- invariants of the state, as predicates of values

  /** The parse stands at `at`; one literal behind it is deferred while a match is saved. */
  function CodedEnd(at: nat, savedLen: nat): int
  {
    if savedLen == 0 then at else at - 1
  }

  ghost predicate Saved(h: seq<nat>, floor: nat, at: nat, savedLen: nat, savedDist: nat, savedLit: nat) {
    savedLen == 0 ||
    (&& MIN_MATCH <= savedLen < LAZY_LIMIT && savedDist <= DICT_SIZE
     && 1 <= at <= |h| && floor + savedDist < at && savedLit == h[at - 1] && Matches(h, at - 1, savedDist, savedLen))
  }

  /** The tokens since block start expand to just what the parse has passed. */
  ghost predicate Parsed(h: seq<nat>, floor: nat, start: nat, total: nat, tokens: seq<Token>, end: int) {
    && floor <= start <= end <= |h| && start + total == end && AllCodable(tokens)
    && ExpandFrom(h[floor..start], tokens) == Some(h[floor..end])
  }

  lemma ParsedLiteral(h: seq<nat>, floor: nat, start: nat, total: nat, tokens: seq<Token>, end: int, lit: Byte)
    requires Parsed(h, floor, start, total, tokens, end) && end < |h| && lit == h[end]
    ensures Parsed(h, floor, start, total + 1, tokens + [Literal(lit)], end + 1)
  {
    ExpandLiteral(h, floor, start, tokens, end);
  }

  lemma ParsedMatch(h: seq<nat>, floor: nat, start: nat, total: nat, tokens: seq<Token>, end: int, dist: nat, len: nat)
    requires Parsed(h, floor, start, total, tokens, end) && Matches(h, end, dist, len) && floor + dist <= end && Codable(Match(len, dist))
    ensures Parsed(h, floor, start, total + len, tokens + [Match(len, dist)], end + len)
  {
    ExpandMatch(h, floor, start, tokens, end, dist, len);
  }

  /** New bytes ahead change nothing behind. */
  lemma ParseGoesOn(h: seq<nat>, more: seq<nat>, floor: nat, start: nat, total: nat, tokens: seq<Token>, at: nat,
                    savedLen: nat, savedDist: nat, savedLit: nat)
    requires at <= |h| && Parsed(h, floor, start, total, tokens, CodedEnd(at, savedLen))
    requires Saved(h, floor, at, savedLen, savedDist, savedLit)
    ensures Parsed(h + more, floor, start, total, tokens, CodedEnd(at, savedLen))
    ensures Saved(h + more, floor, at, savedLen, savedDist, savedLit)
    ensures floor <= start <= |h| && (h + more)[..start] == h[..start] && (h + more)[floor..start] == h[floor..start]
  {
    var end := CodedEnd(at, savedLen);
    assert (h + more)[floor..end] == h[floor..end] && (h + more)[floor..start] == h[floor..start];
    assert (h + more)[..start] == h[..start];
    if savedLen != 0 { MatchesMore(h, more, at - 1, savedDist, savedLen); }
  }

  lemma RingEnd(n: nat, pos32: nat, lookahead: nat)
    requires lookahead <= n && pos32 == (n - lookahead) % 0x1_0000_0000
    ensures (pos32 + lookahead) % DICT_SIZE == n % DICT_SIZE
  {
  }

  lemma NextCell(n: nat, dst: nat)
    requires dst == n % DICT_SIZE
    ensures (dst + 1) % DICT_SIZE == (n + 1) % DICT_SIZE
  {
  }

  /** How many bytes of so many there is room for behind those that lie ahead. */
  function Taken(bytes: nat, lookahead: nat): (n: nat)
    ensures n <= bytes
  {
    if lookahead <= MAX_MATCH then Least(bytes, MAX_MATCH - lookahead) else 0
  }

  /** Equal modulo 2^32. */
  predicate SamePosition(insPos: int, p: int) {
    (insPos - p) % 0x1_0000_0000 == 0
  }

  lemma SamePlaces(insPos: int, p: nat)
    requires SamePosition(insPos, p)
    ensures insPos % DICT_SIZE == p % DICT_SIZE && insPos % 65536 == p % 65536
  {
    var m := (insPos - p) / 0x1_0000_0000;
    ModSame(insPos, p, DICT_SIZE, 131072 * m);
    ModSame(insPos, p, 65536, 65536 * m);
  }

  lemma ModSame(x: int, p: nat, n: nat, k: int)
    requires n > 0 && x == p + n * k
    ensures x % n == p % n
  {
    var q, d := p / n, x / n - (p / n + k);
    assert n * d == n * (x / n) - n * q - n * k == p % n - x % n;
    assert d > 0 ==> n * d >= n;
    assert d < 0 ==> n * d <= -(n as int);
  }

  lemma NextPosition(insPos: int, p: int)
    requires SamePosition(insPos, p)
    ensures SamePosition(insPos + 1, p + 1)
  {
  }

  lemma StartsTogether(n: nat, pos32: nat, lookahead: nat)
    requires lookahead <= n && pos32 == (n - lookahead) % 0x1_0000_0000
    ensures SamePosition(pos32 + lookahead - 2, n - 2) && SamePosition(pos32 + lookahead - 1, n - 1)
  {
    assert (pos32 + lookahead - 2) - (n - 2) == -((n - lookahead) / 0x1_0000_0000) * 0x1_0000_0000;
  }

  lemma FirstHash(h: seq<nat>, p: nat, d0: nat, d1: nat, c: nat)
    requires p + 3 <= |h| && d0 == h[p] && d1 == h[p + 1] && c == h[p + 2]
    ensures Xor(Xor(d0 * HASH_SHIFT_FACTOR * HASH_SHIFT_FACTOR, d1 * HASH_SHIFT_FACTOR), c) % HASH_SIZE == Hash3(h, p)
  {
    hide Xor;
  }

  // ----- the compressor

  /** What the blocks put out so far decompress to. */
  function ExpandBlocks(blocks: seq<Block>): Option<seq<nat>> {
    if blocks == [] then Some([])
    else
      match ExpandBlocks(blocks[..|blocks| - 1])
      case None => None
      case Some(out) => ApplyBlock(out, blocks[|blocks| - 1])
  }

  /** Stored lengths have 16 bits, and tokens fit their fields. */
  ghost predicate Encodable(block: Block) {
    match block
    case Stored(bytes) => |bytes| < 65536
    case Coded(tokens) => AllCodable(tokens)
  }

  /** The 32-bit difference of positions is the true one, and a block in the ring fits a stored block. */
  lemma BlockLength(h: seq<nat>, floor: nat, start: nat, total: nat, tokens: seq<Token>, end: int, at: nat,
                    pos32: nat, blockPos32: nat)
    requires Parsed(h, floor, start, total, tokens, end) && |tokens| < 65536 && end <= at <= end + 1
    requires pos32 == at % 0x1_0000_0000 && blockPos32 == start % 0x1_0000_0000
    ensures (pos32 - blockPos32) % 0x1_0000_0000 == at - start && total <= at - start
    ensures floor <= start && start + total == end && AllCodable(tokens)
  {
    ExpandGrows(h[floor..start], tokens);
    assert total <= MAX_MATCH * |tokens|;
    Difference32(at, start, pos32, blockPos32);
  }

  lemma Difference32(x: nat, y: nat, x32: nat, y32: nat)
    requires y <= x < y + 0x1_0000_0000 && x32 == x % 0x1_0000_0000 && y32 == y % 0x1_0000_0000
    ensures (x32 - y32) % 0x1_0000_0000 == x - y
  {
  }

  lemma ParsedEnd(h: seq<nat>, floor: nat, start: nat, total: nat, tokens: seq<Token>, end: int)
    requires Parsed(h, floor, start, total, tokens, end)
    ensures floor <= start <= end == start + total <= |h|
  {
  }

  lemma BlocksSnoc(blocks: seq<Block>, block: Block)
    requires ExpandBlocks(blocks).Some?
    ensures ExpandBlocks(blocks + [block]) == ApplyBlock(ExpandBlocks(blocks).value, block)
  {
    assert (blocks + [block])[..|blocks|] == blocks;
  }

  lemma PrefixParts(h: seq<nat>, floor: nat, start: nat, end: nat)
    requires floor <= start <= end <= |h|
    ensures h[..end] == h[..start] + h[start..end] && h[floor..end] == h[floor..start] + h[start..end]
    ensures h[..floor] + h[floor..start] == h[..start] && h[..floor] + h[floor..end] == h[..end]
  {
  }

  lemma NothingSaved(h: seq<nat>, floor: nat, savedLen: nat, savedDist: nat, savedLit: nat)
    requires Saved(h, floor, |h|, savedLen, savedDist, savedLit)
    ensures savedLen == 0
  {
  }

  lemma FreshStart(h: seq<nat>, floor: nat, start: nat, total: nat, tokens: seq<Token>, end: int,
                   savedLen: nat, savedDist: nat, savedLit: nat, blocks: seq<Block>)
    requires Parsed(h, floor, start, total, tokens, end) && end == CodedEnd(|h|, savedLen) && start == |h| && tokens == []
    requires Saved(h, floor, |h|, savedLen, savedDist, savedLit)
    ensures end == |h| && Parsed(h, |h|, |h|, total, [], |h|) && Saved(h, |h|, |h|, savedLen, savedDist, savedLit)
    ensures ExpandBlocks(blocks[|blocks|..]) == Some(h[|h|..start])
  {
    assert blocks[|blocks|..] == [] && h[|h|..start] == [];
  }

  /** More bits, more bytes: those before stay. */
  lemma OutGrows(was: Mark, now: Mark)
    requires GoodMark(was) && GoodMark(now) && MarkBits(was) <= MarkBits(now)
    ensures |was.out| <= |now.out| && now.out[..|was.out|] == was.out
  {
    hide LowBits, BitsOfBytes, BytesOf;
    var more, behind := LowBits(was.buffer, was.count), LowBits(now.buffer, now.count);
    BytesBack(was.out, more + MarkBits(now)[|MarkBits(was)|..]);
    BytesBack(now.out, behind);
    assert ByteBits(was.out) + (more + MarkBits(now)[|MarkBits(was)|..]) == MarkBits(now) == ByteBits(now.out) + behind;
    BytesPart(MarkBits(now), |was.out|, |now.out|);
  }

  lemma {:induction false} BytesPart(bits: Word, k: nat, n: nat)
    requires k <= n && 8 * n <= |bits|
    ensures BytesOf(bits, n)[..k] == BytesOf(bits, k)
  {
    if k > 0 { BytesPart(bits[8..], k - 1, n - 1); }
  }

  lemma NothingMore(out: seq<nat>)
    ensures ExpandFrom(out, []) == Some(out)
  {
  }

  lemma BlockPutOut(h: seq<nat>, floor: nat, floorBlocks: nat, start: nat, total: nat, tokens: seq<Token>, end: int,
                    blocks: seq<Block>, block: Block)
    requires Parsed(h, floor, start, total, tokens, end) && floorBlocks <= |blocks|
    requires ExpandBlocks(blocks) == Some(h[..start])
    requires ExpandBlocks(blocks[floorBlocks..]) == Some(h[floor..start])
    requires block == Coded(tokens) || block == Stored(h[start..end])
    ensures ExpandBlocks(blocks + [block]) == Some(h[..end])
    ensures ExpandBlocks((blocks + [block])[floorBlocks..]) == Some(h[floor..end])
    ensures Parsed(h, floor, end, 0, [], end)
  {
    hide ExpandBlocks, ExpandFrom;
    BlocksSnoc(blocks, block);
    BlocksSnoc(blocks[floorBlocks..], block);
    assert (blocks + [block])[floorBlocks..] == blocks[floorBlocks..] + [block];
    ExpandBehind(h[..floor], h[floor..start], tokens);
    PrefixParts(h, floor, start, end);
    NothingMore(h[floor..end]);
  }

  lemma NothingYet(dict: seq<nat>)
    requires |dict| == WINDOW_LENGTH
    ensures Window(dict, []) && Saved([], 0, 0, 0, 0, 0) && Parsed([], 0, 0, 0, [], 0)
    ensures ExpandBlocks([]) == Some([]) && ExpandBlocks([][0..]) == Some([])
  {
  }

  /** What follows a block, 42 bits at most, still has room. */
  predicate RoomForTail(n: nat, from: nat) {
    n + 42 < 8 * (from + OUT_BUF_LIMIT)
  }

  /** Sizes of a block's bits, the end of what has been put, and where the flush started. */
  predicate PutSizes(from: nat, base: nat, bits: nat, out: nat, count: nat) {
    base <= 8 * from + 23 && 8 * out + count == base + 1 + bits
  }

  /** The output buffer takes every coded block: falling back from dynamic to static codes is never needed. */
  lemma CodedHasRoom(from: nat, base: nat, bits: nat, next: nat, out: nat, count: nat)
    requires PutSizes(from, base, bits, out, count) && next <= CODE_BUF_SIZE - 2 && CodedBits(bits, next)
    ensures out < from + OUT_BUF_LIMIT && RoomForTail(base + 1 + bits, from)
  {
  }

  lemma RawHasRoom(from: nat, base: nat, bits: nat, length: nat, out: nat, count: nat)
    requires PutSizes(from, base, bits, out, count) && bits <= 8 * length + 41 && length <= DICT_SIZE
    ensures out < from + OUT_BUF_LIMIT && RoomForTail(base + 1 + bits, from)
  {
  }

  /** Of so many flushes, all but `asked` put out long blocks, before this position. */
  predicate Spaced(start: int, flushes: int, asked: int) {
    SPACING * flushes <= start + SPACING * asked
  }

  lemma SpacedOn(start: int, flushes: int, asked: int, total: nat)
    requires Spaced(start, flushes, asked)
    ensures total >= SPACING ==> Spaced(start + total, flushes + 1, asked)
    ensures Spaced(start + total, flushes + 1, asked + 1)
  {
  }

  lemma NoneAsked(start: int, flushes: int, calls: int)
    ensures Spaced(start, flushes, calls - 1) ==> Spaced(start, flushes, calls)
  {
  }

  lemma FlushesOf(start: nat, flushes: nat, calls: nat, length: nat)
    requires Spaced(start, flushes, calls) && start <= length
    ensures flushes <= calls + length / SPACING
  {
    var q, r := DivParts(length, SPACING);
  }

  datatype Status = BadParam | PutBufFailed | Okay | Done

  class Compressor {
    const dict: array<Byte>
    const chain: array<nat>
    const hash: array<nat>
    const codes: CodeBuffer
    const writer: BlockWriter
    const outlet: Outlet
    const probesShort: nat
    const probesLong: nat
    const greedy: bool
    const runsOnly: bool
    const storedOnly: bool
    const filter: bool
    var pos32: nat
    var lookahead: nat
    var dictSize: nat
    var savedLit: Byte
    var savedDist: nat
    var savedLen: nat
    var totalBytes: nat
    var blockPos32: nat
    /** All bytes taken in, where the current block starts in them, and the blocks before it. */
    ghost var h: seq<nat>
    ghost var start: nat
    ghost var blocks: seq<Block>
    /** The last full flush: how many bytes had been taken in, how many blocks put out. */
    ghost var floor: nat
    ghost var floorBlocks: nat

    ghost predicate Separate() {
      && chain != hash && chain != codes.mainCount && chain != codes.distCount
      && hash != codes.mainCount && hash != codes.distCount && dict != codes.buf
      && chain.Length == DICT_SIZE && hash.Length == HASH_SIZE && dict.Length == WINDOW_LENGTH
      && probesShort >= 1 && probesLong >= 1
      && writer.Arrays() !! {chain, hash, codes.mainCount, codes.distCount}
    }

    ghost function At(): int
      reads this
    {
      |h| - lookahead
    }

    /** Codes take at most two bytes for each byte they stand for. */
    ghost predicate Paced()
      reads this, codes
    {
      codes.next <= 1 + 2 * totalBytes
    }

    ghost predicate Parse()
      reads this, codes
    {
      && At() >= 0 && Saved(h, floor, At(), savedLen, savedDist, savedLit)
      && Parsed(h, floor, start, totalBytes, codes.Tokens(), CodedEnd(At(), savedLen))
      && blockPos32 == start % 0x1_0000_0000 && Paced()
      && ExpandBlocks(blocks) == Some(h[..start])
      && floorBlocks <= |blocks| && ExpandBlocks(blocks[floorBlocks..]) == Some(h[floor..start])
    }

    /** What the chains hold; the dictionary reaches back to the last full flush, or far enough. */
    ghost predicate Known()
      reads this, chain, hash
    {
      && Indexed(hash[..], chain[..], h, floor)
      && (dictSize == |h| - lookahead - floor || dictSize >= DICT_SIZE - MAX_MATCH)
    }

    ghost predicate Valid()
      reads this, dict, chain, hash, codes, codes.buf, codes.mainCount, codes.distCount
    {
      && Separate() && codes.Valid() && Window(dict[..], h)
      && Positions(h, floor, pos32, lookahead, dictSize) && Known() && Parse()
    }

    /** The bits put out stand for the blocks put out. */
    ghost predicate Written()
      reads this, writer, writer.w
    {
      writer.Valid() && ExpandBlocks(blocks) == Some(writer.expanded) && Sturdy()
    }

    /** Nothing but a second header spoils the stream, when the count of flushes comes round. */
    ghost predicate Sturdy()
      reads writer
    {
      writer.intact <==> (writer.zlib ==> writer.flushes <= 0x1_0000_0000)
    }

    /** What has been put out is handed over, or waits to be: the result of a flush says how much waits, or that the callback
        has failed. */
    ghost predicate HandedOver(n: int)
      reads outlet, writer, writer.w
    {
      && (n < 0 <==> outlet.failed) && (outlet.failed ==> outlet.callback)
      && (!outlet.failed ==> n == |outlet.pending| && outlet.All() == writer.w.out)
      && (outlet.callback ==> outlet.pending == []) && (outlet.pending != [] ==> outlet.room == 0)
    }

    lemma NothingWaits()
      ensures HandedOver(0) <==> outlet.Open(writer.w.out)
    {
    }

    lemma NothingParsed()
      requires Separate() && codes.Valid() && codes.Tokens() == [] && codes.next == 1 && h == [] && blocks == []
      requires Window(dict[..], h) && Indexed(hash[..], chain[..], h, 0) && ExpandBlocks([]) == Some([])
      requires pos32 == lookahead == dictSize == savedLen == totalBytes == blockPos32 == start == floor == floorBlocks == 0
      requires Saved([], 0, 0, 0, savedDist, savedLit) && Parsed([], 0, 0, 0, [], 0)
      ensures Valid()
    {
      hide Holds, TokensCounted, CodeBuffer.Valid, Window, Parsed, Saved, ExpandBlocks, Indexed;
      assert h[..start] == [] && h[floor..start] == [];
    }

    constructor (probes: nat, greedyParsing: bool, runs: bool, stored: bool, filterMatches: bool, zlib: bool, staticOnly: bool,
                 callback: bool)
      ensures Valid() && Written() && h == [] && blocks == [] && start == 0 && codes.next == 1 && writer.intact && writer.flushes == 0
      ensures outlet.Open([]) && outlet.Open(writer.w.out) && outlet.callback == callback && writer.zlib == zlib && fresh(outlet)
      ensures fresh(dict) && fresh(chain) && fresh(hash) && fresh(codes) && fresh(writer) && fresh(writer.w) && fresh(writer.Arrays())
      ensures fresh(codes.buf) && fresh(codes.mainCount) && fresh(codes.distCount)
      ensures probesShort == 1 + (probes + 2) / 3 && probesLong == 1 + (probes / 4 + 2) / 3
      ensures greedy == greedyParsing && runsOnly == runs && storedOnly == stored && filter == filterMatches
      ensures writer.forceStatic == staticOnly
    {
      hide LeadsTo, ByteBits, Holds, TokensCounted, BlockWriter.Valid, CodeBuffer.Valid, Window, Parsed, Saved, ExpandBlocks,
        Compressor.Valid, Indexed, Outlet.Open, BitWriter.Valid, BitWriter.Bits;
      dict := new Byte[WINDOW_LENGTH](_ => 0);
      chain := new nat[DICT_SIZE](_ => 0);
      hash := new nat[HASH_SIZE](_ => 0);
      codes := new CodeBuffer();
      writer := new BlockWriter(zlib, staticOnly);
      outlet := new Outlet(callback);
      probesShort := 1 + (probes + 2) / 3;
      probesLong := 1 + (probes / 4 + 2) / 3;
      greedy, runsOnly, storedOnly, filter := greedyParsing, runs, stored, filterMatches;
      pos32, lookahead, dictSize, savedLit, savedDist, savedLen := 0, 0, 0, 0, 0, 0;
      totalBytes, blockPos32, h, start, blocks, floor, floorBlocks := 0, 0, [], 0, [], 0, 0;
      new;
      NothingYet(dict[..]);
      FreshIndex(hash[..], chain[..], h);
      NothingParsed();
    }

    /** Matches that are not worth it: three bytes far back, at just the distance of the ring's start, or short ones where
        the filter is on. */
    predicate Dropped(dist: nat, len: nat)
      reads this`pos32
    {
      (len == 3 && dist >= 8192) || dist == pos32 % 32768 || (filter && len <= 5)
    }

    /** The best match at the current position, or distance 0. It is longer than the one that is saved; none is missed but
        behind many others, or of a run in run-length mode, and what is found is dropped only if it is not worth it. */
    method ChooseMatch() returns (dist: nat, len: nat, ghost found: nat, ghost longest: nat)
      requires Valid() && lookahead >= 1
      ensures dist != 0 ==> GoodMatch(h, At(), dictSize, dist, len) && len <= lookahead
      ensures dist == 0 ==> len <= savedLen || savedLen == 0
      ensures dist == (if Dropped(found, longest) then 0 else found) && len == if Dropped(found, longest) then 0 else longest
      ensures !runsOnly && !storedOnly ==>
        NoneMissed(h, At(), dictSize, lookahead, if savedLen >= 32 then probesLong else probesShort, longest)
      ensures runsOnly && !storedOnly && dictSize != 0 ==>
        found <= 1 && Beaten(h, At(), lookahead, 1, if found == 0 then MIN_MATCH - 1 else longest)
      ensures storedOnly ==> found == 0
    {
      hide Parsed, Matches, ExpandBlocks, Indexed, Longest, Beaten, NoneMissed;
      var curPos: nat := pos32 % DICT_SIZE;
      MaskOf32(At());
      dist, len := 0, if savedLen != 0 then savedLen else MIN_MATCH - 1;
      if runsOnly || storedOnly {
        if dictSize != 0 && !storedOnly {
          dist, len := FindRun(dict, curPos, dictSize, lookahead, h, At());
        }
      } else {
        var probes := if len >= 32 then probesLong else probesShort;
        dist, len := FindMatch(dict, chain, pos32, dictSize, lookahead, 0, len, probes, h, At());
        NoneIsMissed(hash[..], chain[..], h, floor, pos32, lookahead, dictSize, At(), probes, len);
      }
      found, longest := dist, len;
      if (len == MIN_MATCH && dist >= 8 * 1024) || curPos == dist || (filter && len <= 5) {
        dist, len := 0, 0;
      }
    }

    method RecordLiteral(lit: Byte, ghost end: int)
      requires codes.Valid() && Paced() && codes.next + 2 <= CODE_BUF_SIZE
      requires Parsed(h, floor, start, totalBytes, codes.Tokens(), end) && end < |h| && lit == h[end]
      modifies this`totalBytes, codes, codes.buf, codes.mainCount, codes.distCount
      ensures codes.Valid() && Paced() && codes.next <= old(codes.next) + 2
      ensures Parsed(h, floor, start, totalBytes, codes.Tokens(), end + 1)
      ensures codes.Tokens() == old(codes.Tokens()) + [Literal(lit)]
    {
      hide Parsed, Holds, TokensCounted;
      ParsedLiteral(h, floor, start, totalBytes, codes.Tokens(), end, lit);
      totalBytes := totalBytes + 1;
      codes.RecordLiteral(lit);
    }

    method RecordMatch(len: nat, dist: nat, ghost end: nat)
      requires codes.Valid() && Paced() && codes.next + 4 <= CODE_BUF_SIZE
      requires Parsed(h, floor, start, totalBytes, codes.Tokens(), end)
      requires Matches(h, end, dist, len) && floor + dist <= end && dist <= DICT_SIZE && MIN_MATCH <= len <= MAX_MATCH
      modifies this`totalBytes, codes, codes.buf, codes.mainCount, codes.distCount
      ensures codes.Valid() && Paced() && codes.next <= old(codes.next) + 4
      ensures Parsed(h, floor, start, totalBytes, codes.Tokens(), end + len)
      ensures codes.Tokens() == old(codes.Tokens()) + [Match(len, dist)]
    {
      hide Parsed, Holds, TokensCounted, Repeats;
      ParsedMatch(h, floor, start, totalBytes, codes.Tokens(), end, dist, len);
      totalBytes := totalBytes + len;
      codes.RecordMatch(len, dist);
    }

    /** Records what the lazy parser decides on and says how far to move. */
    method ParseStep(dist: nat, len: nat, ghost at: nat) returns (move: nat)
      requires Valid() && at == At() && lookahead >= 1 && codes.next + 6 <= CODE_BUF_SIZE
      requires dist != 0 ==> GoodMatch(h, at, dictSize, dist, len) && len <= lookahead
      requires dist == 0 ==> len <= savedLen || savedLen == 0
      modifies this`savedLit, this`savedDist, this`savedLen, this`totalBytes
      modifies codes, codes.buf, codes.mainCount, codes.distCount
      ensures 1 <= move <= lookahead && codes.Valid() && Paced() && codes.next <= old(codes.next) + 6
      ensures Saved(h, floor, at + move, savedLen, savedDist, savedLit)
      ensures Parsed(h, floor, start, totalBytes, codes.Tokens(), CodedEnd(at + move, savedLen))
      ensures old(savedLen) != 0 && len <= old(savedLen) ==>
        codes.Tokens() == old(codes.Tokens()) + [Match(old(savedLen), old(savedDist))] && move == old(savedLen) - 1 && savedLen == 0
      ensures old(savedLen) != 0 && old(savedLen) < len < 128 ==>
        codes.Tokens() == old(codes.Tokens()) + [Literal(h[at - 1])] && move == 1 && savedLen == len && savedDist == dist
      ensures old(savedLen) != 0 && old(savedLen) < len && len >= 128 ==>
        codes.Tokens() == old(codes.Tokens()) + [Literal(h[at - 1])] + [Match(len, dist)] && move == len && savedLen == 0
      ensures old(savedLen) == 0 && dist == 0 ==>
        codes.Tokens() == old(codes.Tokens()) + [Literal(h[at])] && move == 1 && savedLen == 0
      ensures old(savedLen) == 0 && dist != 0 && (greedy || runsOnly || len >= 128) ==>
        codes.Tokens() == old(codes.Tokens()) + [Match(len, dist)] && move == len && savedLen == 0
      ensures old(savedLen) == 0 && dist != 0 && !greedy && !runsOnly && len < 128 ==>
        codes.Tokens() == old(codes.Tokens()) && move == 1 && savedLen == len && savedDist == dist
    {
      hide Parsed, Holds, TokensCounted, Repeats, ExpandBlocks, Indexed;
      var curPos: nat := pos32 % DICT_SIZE;
      MaskOf32(at);
      WindowMasked(dict[..], h, at);
      move := 1;
      if savedLen != 0 {
        if len > savedLen {
          RecordLiteral(savedLit, at - 1);
          if len >= LAZY_LIMIT {
            RecordMatch(len, dist, at);
            savedLen := 0;
            move := len;
          } else {
            savedLit, savedDist, savedLen := dict[curPos], dist, len;
          }
        } else {
          RecordMatch(savedLen, savedDist, at - 1);
          move := savedLen - 1;
          savedLen := 0;
        }
      } else if dist == 0 {
        RecordLiteral(dict[Least(curPos, WINDOW_LENGTH - 1)], at);
      } else if greedy || runsOnly || len >= LAZY_LIMIT {
        RecordMatch(len, dist, at);
        move := len;
      } else {
        savedLit, savedDist, savedLen := dict[curPos], dist, len;
      }
    }

    /** The state the two ways of taking in bytes share. */
    ghost predicate Filling()
      reads this, dict
    {
      Separate() && Window(dict[..], h) && pos32 < 0x1_0000_0000
    }

    method PutByte(dst: nat, c: Byte)
      requires Filling() && dst == |h| % DICT_SIZE
      modifies this`h, dict
      ensures Filling() && h == old(h) + [c]
    {
      ghost var before := dict[..];
      PutKeepsWindow(before, h, c);
      dict[dst] := c;
      if dst < MAX_MATCH - 1 { dict[DICT_SIZE + dst] := c; }
      assert dict[..] == Put(before, dst, c);
      h := h + [c];
    }

    method LinkIn(insPos: int, bucket: nat)
      requires Separate() && bucket < HASH_SIZE
      modifies chain, hash
      ensures chain[..] == old(chain[..])[insPos % DICT_SIZE := old(hash[bucket])] && hash[..] == old(hash[..])[bucket := insPos % 65536]
    {
      chain[insPos % DICT_SIZE] := hash[bucket];
      hash[bucket] := insPos % 65536;
    }

    /** Links the position that the last byte has made known. */
    method LinkLast(insPos: int, bucket: nat, ghost before: seq<nat>)
      requires Separate() && Indexed(hash[..], chain[..], before, floor) && floor + 2 <= |before|
      requires |h| == |before| + 1 && h == before + [h[|before|]] && bucket == Hash3(h, |before| - 2)
      requires SamePosition(insPos, |before| - 2)
      modifies chain, hash
      ensures Indexed(hash[..], chain[..], h, floor)
    {
      hide Indexed, Hash3, SamePosition;
      SamePlaces(insPos, |before| - 2);
      LinkKeepsIndex(hash[..], chain[..], before, floor, h[|before|]);
      LinkIn(insPos, bucket);
    }

    method StartRolling(insPos: int) returns (bucket: nat)
      requires Filling() && |h| >= 2 && SamePosition(insPos, |h| - 2)
      ensures RollReady(bucket, h)
    {
      hide Xor, Window, SamePosition, RollReady;
      SamePlaces(insPos, |h| - 2);
      NextPosition(insPos, |h| - 2);
      SamePlaces(insPos + 1, |h| - 1);
      WindowMasked(dict[..], h, |h| - 2);
      WindowMasked(dict[..], h, |h| - 1);
      bucket := Xor(dict[insPos % DICT_SIZE] * HASH_SHIFT_FACTOR, dict[(insPos + 1) % DICT_SIZE]);
      RollStarts(h, dict[insPos % DICT_SIZE], dict[(insPos + 1) % DICT_SIZE]);
    }

    method RollIn(c: Byte, dst: nat, insPos: int, bucket: nat) returns (next: nat)
      requires Filling() && dst == |h| % DICT_SIZE && RollReady(bucket, h) && SamePosition(insPos, |h| - 2)
      requires Indexed(hash[..], chain[..], h, floor) && floor + 2 <= |h|
      modifies this`h, dict, chain, hash
      ensures Filling() && h == old(h) + [c] && RollReady(next, h) && Indexed(hash[..], chain[..], h, floor)
    {
      hide Xor, Window, Indexed, Hash3, SamePosition, RollReady;
      ghost var before := h;
      PutByte(dst, c);
      RollOn(bucket, before, c);
      next := HashStep(bucket, c);
      LinkLast(insPos, next, before);
    }

    /** With at least two bytes known, the hash rolls along. */
    method FillRolling(src: seq<Byte>, srcPos: nat) returns (srcPos': nat)
      requires Filling() && lookahead <= MAX_MATCH && lookahead <= |h| && srcPos <= |src|
      requires pos32 == (|h| - lookahead) % 0x1_0000_0000
      requires Indexed(hash[..], chain[..], h, floor) && floor + 2 <= |h|
      modifies this`h, this`lookahead, dict, chain, hash
      ensures Filling() && srcPos' == srcPos + Taken(|src| - srcPos, old(lookahead))
      ensures h == old(h) + src[srcPos..srcPos'] && lookahead == old(lookahead) + (srcPos' - srcPos)
      ensures Indexed(hash[..], chain[..], h, floor)
    {
      hide Xor, Window, Indexed, Hash3, SamePosition, RollReady;
      ghost var h0, l0 := h, lookahead;
      var dst: nat := (pos32 + lookahead) % DICT_SIZE;
      RingEnd(|h|, pos32, lookahead);
      var insPos: int := pos32 + lookahead - 2;
      StartsTogether(|h|, pos32, lookahead);
      var bucket := StartRolling(insPos);
      var count := Least(|src| - srcPos, MAX_MATCH - lookahead);
      lookahead := lookahead + count;
      srcPos' := srcPos;
      while srcPos' < srcPos + count
        invariant Filling() && srcPos <= srcPos' <= srcPos + count
        invariant h == h0 + src[srcPos..srcPos'] && dst == |h| % DICT_SIZE && lookahead == l0 + count
        invariant RollReady(bucket, h) && SamePosition(insPos, |h| - 2) && Indexed(hash[..], chain[..], h, floor)
      {
        var c := src[srcPos'];
        srcPos' := srcPos' + 1;
        bucket := RollIn(c, dst, insPos, bucket);
        assert h == h0 + src[srcPos..srcPos'];
        NextCell(|h| - 1, dst);
        NextPosition(insPos, |h| - 3);
        dst := (dst + 1) % DICT_SIZE;
        insPos := insPos + 1;
      }
    }

    /** Links a position whose bytes have not been in the hash before. */
    method LinkFirst(insPos: int, c: Byte, ghost before: seq<nat>)
      requires Filling() && Indexed(hash[..], chain[..], before, floor) && floor + 2 <= |before|
      requires h == before + [c] && SamePosition(insPos, |before| - 2)
      modifies chain, hash
      ensures Filling() && Indexed(hash[..], chain[..], h, floor)
    {
      hide Xor, Window, Indexed, Hash3, SamePosition;
      SamePlaces(insPos, |before| - 2);
      NextPosition(insPos, |before| - 2);
      SamePlaces(insPos + 1, |before| - 1);
      WindowMasked(dict[..], h, |before| - 2);
      WindowMasked(dict[..], h, |before| - 1);
      var d0: nat, d1: nat := dict[insPos % DICT_SIZE], dict[(insPos + 1) % DICT_SIZE];
      var bucket := Xor(Xor(d0 * HASH_SHIFT_FACTOR * HASH_SHIFT_FACTOR, d1 * HASH_SHIFT_FACTOR), c) % HASH_SIZE;
      FirstHash(h, |before| - 2, d0, d1, c);
      LinkLast(insPos, bucket, before);
    }

    /** At the start and after a full flush. */
    method FillFirst(src: seq<Byte>, srcPos: nat) returns (srcPos': nat)
      requires Filling() && lookahead <= MAX_MATCH && lookahead <= |h| && srcPos <= |src|
      requires pos32 == (|h| - lookahead) % 0x1_0000_0000
      requires Indexed(hash[..], chain[..], h, floor) && |h| == floor + dictSize + lookahead
      modifies this`h, this`lookahead, dict, chain, hash
      ensures Filling() && srcPos' == srcPos + Taken(|src| - srcPos, old(lookahead))
      ensures h == old(h) + src[srcPos..srcPos'] && lookahead == old(lookahead) + (srcPos' - srcPos)
      ensures Indexed(hash[..], chain[..], h, floor)
    {
      hide Xor, Window, Indexed, Hash3, SamePosition;
      ghost var h0, l0 := h, lookahead;
      srcPos' := srcPos;
      while srcPos' < |src| && lookahead < MAX_MATCH
        invariant Filling() && srcPos <= srcPos' <= |src| && l0 <= lookahead <= MAX_MATCH && lookahead <= |h|
        invariant h == h0 + src[srcPos..srcPos'] && lookahead == l0 + (srcPos' - srcPos)
        invariant pos32 == (|h| - lookahead) % 0x1_0000_0000
        invariant |h| == floor + dictSize + lookahead && Indexed(hash[..], chain[..], h, floor)
        decreases |src| - srcPos'
      {
        var c := src[srcPos'];
        srcPos' := srcPos' + 1;
        var dst: nat := (pos32 + lookahead) % DICT_SIZE;
        RingEnd(|h|, pos32, lookahead);
        ghost var before := h;
        StartsTogether(|h|, pos32, lookahead);
        PutByte(dst, c);
        assert h == h0 + src[srcPos..srcPos'];
        lookahead := lookahead + 1;
        if lookahead + dictSize >= MIN_MATCH {
          var insPos: int := pos32 + (lookahead - 1) - 2;
          LinkFirst(insPos, c, before);
        } else {
          TooFew(hash[..], chain[..], before, floor, c);
        }
      }
    }

    method TakeBytes(src: seq<Byte>, srcPos: nat) returns (srcPos': nat)
      requires Filling() && Positions(h, floor, pos32, lookahead, dictSize) && Known() && srcPos <= |src|
      modifies this`h, this`lookahead, dict, chain, hash
      ensures Filling() && srcPos' == srcPos + Taken(|src| - srcPos, old(lookahead))
      ensures h == old(h) + src[srcPos..srcPos'] && lookahead == old(lookahead) + (srcPos' - srcPos) <= MAX_MATCH
      ensures Indexed(hash[..], chain[..], h, floor)
    {
      hide Window, Indexed;
      if lookahead + dictSize >= MIN_MATCH - 1 {
        srcPos' := FillRolling(src, srcPos);
      } else {
        srcPos' := FillFirst(src, srcPos);
      }
    }

    /** Takes in bytes until a longest match lies ahead or the source runs out. */
    method Fill(src: seq<Byte>, srcPos: nat) returns (srcPos': nat)
      requires Valid() && srcPos <= |src|
      modifies this`h, this`lookahead, this`dictSize, dict, chain, hash
      ensures Valid() && srcPos' == srcPos + Taken(|src| - srcPos, old(lookahead))
      ensures h == old(h) + src[srcPos..srcPos'] && lookahead == old(lookahead) + (srcPos' - srcPos)
    {
      hide Window, Parsed, Saved, ExpandBlocks, Holds, TokensCounted, Indexed, CodeBuffer.Valid;
      ghost var h0, at := h, At();
      srcPos' := TakeBytes(src, srcPos);
      dictSize := Least(DICT_SIZE - lookahead, dictSize);
      ParseGoesOn(h0, src[srcPos..srcPos'], floor, start, totalBytes, codes.Tokens(), at, savedLen, savedDist, savedLit);
    }

    /** The bytes of a stored block, read from the ring. */
    method StoredBytes() returns (bytes: seq<nat>)
      requires Separate() && Window(dict[..], h) && blockPos32 == start % 0x1_0000_0000
      requires start + totalBytes <= |h| <= start + DICT_SIZE
      ensures bytes == h[start..start + totalBytes] && Bytes(bytes)
    {
      bytes := [];
      for i := 0 to totalBytes
        invariant bytes == h[start..start + i] && Bytes(bytes)
      {
        RingEnd(start + i, blockPos32, i);
        WindowMasked(dict[..], h, start + i);
        var c: nat := dict[(blockPos32 + i) % DICT_SIZE];
        bytes := bytes + [c];
        assert h[start..start + i + 1] == h[start..start + i] + [h[start + i]];
      }
    }

    /** The block as codes, statically or dynamically. */
    method TryCoded(static_: bool, from: nat, ghost base: Word, ghost last: bool, ghost tokens: seq<Token>)
        returns (fits: bool, ghost bits: Word)
      requires Separate() && codes.mainCount.Length == 288 && codes.distCount.Length == 32 && codes.mainCount != codes.distCount
      requires AllCodable(tokens) && codes.next <= CODE_BUF_SIZE - 2 && codes.buf.Length == CODE_BUF_SIZE
      requires codes.buf[..codes.next] == Layout(tokens)
      requires !static_ ==> TokensCounted(codes.mainCount[..], codes.distCount[..], tokens) && |tokens| + 1 < 65536
      requires writer.Separate() && writer.w.Valid() && writer.w.Bits() == base + [last] && |base| <= 8 * from + 23
      modifies codes.mainCount, writer.w, writer.mainSizes, writer.mainCodes, writer.distSizes, writer.distCodes
      ensures writer.w.Valid() && writer.w.Bits() == base + [last] + bits && Says(bits, (|base| + 1) % 8, Coded(tokens))
      ensures fits == writer.HadRoom(from) && CodedBits(|bits|, codes.next)
      ensures LowBits(if static_ then 1 else 2, 2) <= bits
    {
      hide LowBits, TokensCounted, Layout, AllCodable, Says, LeadsTo, ByteBits, MarkBits, GoodMark;
      fits, bits := writer.CompressBlock(codes, static_, from, tokens, (|base| + 1) % 8);
    }

    /** The block as it is, in place of what has been put since the mark. */
    method PutRaw(mark: Mark, ghost from: nat, ghost base: Word, ghost last: bool) returns (ghost block: Block, ghost bits: Word)
      requires Separate() && Window(dict[..], h) && blockPos32 == start % 0x1_0000_0000
      requires start + totalBytes <= |h| <= start + DICT_SIZE
      requires writer.Separate() && GoodMark(mark) && MarkBits(mark) == base + [last] && |base| <= 8 * from + 23
      modifies writer.w
      ensures block == Stored(h[start..start + totalBytes])
      ensures writer.w.Valid() && writer.w.Bits() == base + [last] + bits && Says(bits, (|base| + 1) % 8, block)
      ensures writer.HadRoom(from) && RoomForTail(|base| + 1 + |bits|, from)
    {
      hide Window, Says, LeadsTo, ByteBits, MarkBits, GoodMark, RoomForTail, Bytes;
      writer.w.Restore(mark);
      var bytes := StoredBytes();
      bits := writer.PutStored(bytes, (|base| + 1) % 8);
      block := Stored(bytes);
      RawHasRoom(from, |base|, |bits|, |bytes|, |writer.w.out|, writer.w.count);
    }

    /** Chooses a block's form: stored, if that is asked for or shorter and the ring still has all of it; else coded,
        statically if the dynamic form finds no room. Whatever form it is, it and what follows it have room. */
    method ChooseForm(inRing: bool, from: nat, ghost base: Word, ghost last: bool, ghost tokens: seq<Token>)
        returns (ghost block: Block, ghost bits: Word, ghost coded: Word)
      requires Separate() && codes.mainCount.Length == 288 && codes.distCount.Length == 32 && codes.mainCount != codes.distCount
      requires AllCodable(tokens) && codes.next <= CODE_BUF_SIZE - 2 && codes.buf.Length == CODE_BUF_SIZE
      requires codes.buf[..codes.next] == Layout(tokens)
      requires TokensCounted(codes.mainCount[..], codes.distCount[..], tokens) && |tokens| + 1 < 65536
      requires Window(dict[..], h) && blockPos32 == start % 0x1_0000_0000
      requires inRing ==> start + totalBytes <= |h| <= start + DICT_SIZE
      requires writer.Separate() && writer.w.Valid() && writer.w.Bits() == base + [last] && |base| <= 8 * from + 23
      modifies codes.mainCount, writer.w, writer.mainSizes, writer.mainCodes, writer.distSizes, writer.distCodes
      ensures block == Coded(tokens) || (inRing && block == Stored(h[start..start + totalBytes]))
      ensures writer.w.Valid() && writer.w.Bits() == base + [last] + bits && Says(bits, (|base| + 1) % 8, block)
      ensures writer.HadRoom(from) && RoomForTail(|base| + 1 + |bits|, from)
      ensures block.Coded? ==> coded == bits && !(storedOnly && inRing)
      ensures block.Coded? ==> LowBits(if writer.forceStatic || totalBytes < 48 then 1 else 2, 2) <= bits
      ensures block.Coded? && inRing && totalBytes != 0 ==> |writer.w.out| - |old(writer.w.out)| + 1 < totalBytes
      ensures block.Stored? && !storedOnly ==> Says(coded, (|base| + 1) % 8, Coded(tokens))
      ensures block.Stored? && !storedOnly ==> (|base| + 1 + |coded|) / 8 - |old(writer.w.out)| + 1 >= totalBytes > 0
    {
      hide LowBits, CodedBits, Window, TokensCounted, Layout, AllCodable, Says, LeadsTo, ByteBits, MarkBits, GoodMark, RoomForTail;
      var useStored := storedOnly && inRing;
      var mark := writer.w.Save();
      var fits := false;
      block, coded := Coded(tokens), [];
      if !useStored {
        fits, bits := TryCoded(writer.forceStatic || totalBytes < 48, from, base, last, tokens);
        coded := bits;
      }
      ghost var n, c := |writer.w.out|, writer.w.count;
      if (useStored || (totalBytes != 0 && Least(|writer.w.out|, from + OUT_BUF_LIMIT) - |mark.out| + 1 >= totalBytes)) && inRing {
        if !useStored { CodedHasRoom(from, |base|, |coded|, codes.next, n, c); }
        block, bits := PutRaw(mark, from, base, last);
      } else if !fits {
        writer.w.Restore(mark);
        fits, bits := TryCoded(true, from, base, last, tokens);
        CodedHasRoom(from, |base|, |coded|, codes.next, n, c);
        assert false;
      } else {
        CodedHasRoom(from, |base|, |coded|, codes.next, n, c);
      }
    }

    method EncodeBlock(last: bool, ghost tokens: seq<Token>, ghost end: nat, ghost at: nat)
        returns (ghost from: nat, ghost base: Word, ghost bits: Word, ghost block: Block)
      requires Separate() && codes.Valid() && codes.next <= CODE_BUF_SIZE - 2 && tokens == codes.Tokens() && writer.Valid()
      requires Window(dict[..], h) && Parsed(h, floor, start, totalBytes, tokens, end) && end <= at <= end + 1
      requires pos32 == at % 0x1_0000_0000 && blockPos32 == start % 0x1_0000_0000
      requires at + lookahead == |h| && dictSize + lookahead <= DICT_SIZE
      modifies codes`next, codes.buf, codes.mainCount
      modifies writer.w, writer.mainSizes, writer.mainCodes, writer.distSizes, writer.distCodes
      ensures Encodable(block) && (block == Coded(tokens) || block == Stored(h[start..end]))
      ensures writer.InBlock(base) && writer.w.Valid() && writer.w.Bits() == base + [last] + bits
      ensures Says(bits, (|base| + 1) % 8, block) && from == |old(writer.w.out)| && writer.HadRoom(from)
      ensures RoomForTail(|base| + 1 + |bits|, from) && old(writer.w.Bits()) <= base
    {
      hide Window, Parsed, Holds, TokensCounted, Layout, AllCodable, Says, LeadsTo, ByteBits, MarkBits, GoodMark, RoomForTail;
      codes.CountsFit();
      BlockLength(h, floor, start, totalBytes, tokens, end, at, pos32, blockPos32);
      var inRing := (pos32 - blockPos32) % 0x1_0000_0000 <= dictSize;
      codes.Seal();
      var began;
      began, base := writer.Begin(last);
      from := began;
      ghost var coded;
      block, bits, coded := ChooseForm(inRing, began, base, last, tokens);
    }

    /** The block positions move on past a block that has been put out. */
    method NextBlock(ghost block: Block, ghost end: nat)
      requires Separate() && codes.Valid() && codes.Tokens() == [] && codes.next == 1 && Window(dict[..], h)
      requires Positions(h, floor, pos32, lookahead, dictSize) && Known() && At() >= 0
      requires Saved(h, floor, At(), savedLen, savedDist, savedLit) && end == CodedEnd(At(), savedLen)
      requires blockPos32 == start % 0x1_0000_0000 && end == start + totalBytes <= |h| && floor <= end
      requires Parsed(h, floor, end, 0, [], end) && ExpandBlocks(blocks + [block]) == Some(h[..end])
      requires floorBlocks <= |blocks| && ExpandBlocks((blocks + [block])[floorBlocks..]) == Some(h[floor..end])
      modifies this`totalBytes, this`blockPos32, this`start, this`blocks
      ensures Valid() && start == end && blocks == old(blocks) + [block]
    {
      hide Window, Parsed, ExpandBlocks, Saved, Holds, TokensCounted, Positions, Indexed;
      blocks := blocks + [block];
      blockPos32 := (blockPos32 + totalBytes) % 0x1_0000_0000;
      start := start + totalBytes;
      totalBytes := 0;
    }

    /** Puts out the block in one of its forms, and what ends the flush. */
    method PutBlock(flush: Flush, adler: nat, ghost tokens: seq<Token>, ghost end: nat) returns (ghost block: Block)
      requires Valid() && Written() && codes.next <= CODE_BUF_SIZE - 2
      requires tokens == codes.Tokens() && end == CodedEnd(At(), savedLen)
      requires flush == Finish && writer.zlib ==> adler == Checksum(1, h[..end])
      modifies codes`next, codes.buf, codes.mainCount, writer, writer.w, writer.Arrays()
      ensures Encodable(block) && (block == Coded(tokens) || block == Stored(h[start..end]))
      ensures ExpandBlocks(blocks + [block]) == Some(h[..end]) && writer.expanded == h[..end]
      ensures ExpandBlocks((blocks + [block])[floorBlocks..]) == Some(h[floor..end]) && Parsed(h, floor, end, 0, [], end)
      ensures (if flush == Finish then writer.Ended() else writer.Valid()) && Sturdy()
      ensures writer.intact == old(writer.intact && !writer.Spoiling()) && writer.flushes == old(writer.flushes) + 1
      ensures old(writer.w.Bits()) <= writer.w.Bits()
    {
      hide Window, Parsed, ExpandBlocks, Holds, TokensCounted, Layout, Saved, Encodable, Says, LeadsTo, ByteBits, MarkBits,
        GoodMark, Checksum, ApplyBlock, BlockWriter.InBlock, BlockWriter.Ended;
      ghost var from, base, bits;
      from, base, bits, block := EncodeBlock(flush == Finish, tokens, end, At());
      BlockPutOut(h, floor, floorBlocks, start, totalBytes, tokens, end, blocks, block);
      BlocksSnoc(blocks, block);
      writer.EndFlush(flush, adler, from, base, bits, block);
    }

    /** Puts out a block and starts the next. */
    method EndBlock(flush: Flush, adler: nat) returns (ghost block: Block)
      requires Valid() && Written() && codes.next <= CODE_BUF_SIZE - 2
      requires flush == Finish ==> lookahead == 0 && adler == Checksum(1, h)
      modifies this`totalBytes, this`blockPos32, this`start, this`blocks
      modifies codes, codes.buf, codes.mainCount, codes.distCount, writer, writer.w, writer.Arrays()
      ensures Valid() && codes.Tokens() == [] && codes.next == 1
      ensures start == CodedEnd(At(), savedLen) && blocks == old(blocks) + [block] && Encodable(block)
      ensures block == Coded(old(codes.Tokens())) || block == Stored(h[old(start)..start])
      ensures (if flush == Finish then writer.Ended() && writer.expanded == h && start == |h| else Written()) && Sturdy()
      ensures writer.intact == old(writer.intact && !writer.Spoiling())
      ensures writer.flushes == old(writer.flushes) + 1 && start == old(start) + old(totalBytes)
      ensures old(writer.w.Bits()) <= writer.w.Bits()
    {
      hide Window, Parsed, ExpandBlocks, Holds, TokensCounted, Saved, Encodable, Checksum, BlockWriter.Ended, BlockWriter.Valid,
        MarkBits;
      ghost var tokens, end := codes.Tokens(), CodedEnd(At(), savedLen);
      ParsedEnd(h, floor, start, totalBytes, tokens, end);
      codes.CountsFit();
      if flush == Finish {
        NothingSaved(h, floor, savedLen, savedDist, savedLit);
        assert h[..|h|] == h;
      }
      block := PutBlock(flush, adler, tokens, end);
      codes.Reset();
      NextBlock(block, end);
    }

    /** Puts out a block, starts the next, and hands over what has become bytes. */
    method FlushBlock(flush: Flush, adler: nat) returns (n: int, ghost block: Block)
      requires Valid() && Written() && codes.next <= CODE_BUF_SIZE - 2 && outlet.Open(writer.w.out)
      requires flush == Finish ==> lookahead == 0 && adler == Checksum(1, h)
      modifies this`totalBytes, this`blockPos32, this`start, this`blocks, outlet
      modifies codes, codes.buf, codes.mainCount, codes.distCount, writer, writer.w, writer.Arrays()
      ensures Valid() && codes.Tokens() == [] && codes.next == 1
      ensures start == CodedEnd(At(), savedLen) && blocks == old(blocks) + [block] && Encodable(block)
      ensures block == Coded(old(codes.Tokens())) || block == Stored(h[old(start)..start])
      ensures (if flush == Finish then writer.Ended() && writer.expanded == h && start == |h| else Written()) && Sturdy()
      ensures writer.intact == old(writer.intact && !writer.Spoiling())
      ensures writer.flushes == old(writer.flushes) + 1 && start == old(start) + old(totalBytes)
      ensures HandedOver(n) && outlet.Reach() == old(outlet.Reach()) && old(outlet.handed) <= outlet.handed
    {
      hide Compressor.Valid, ExpandBlocks, Encodable, Checksum, BlockWriter.Ended, BlockWriter.Valid, MarkBits, GoodMark;
      writer.OutIsGood();
      ghost var was := writer.w.Now();
      var from := |writer.w.out|;
      block := EndBlock(flush, adler);
      writer.OutIsGood();
      OutGrows(was, writer.w.Now());
      n := outlet.Emit(writer.w.out[from..]);
    }

    /** Moves on by `move` bytes. */
    method Advance(move: nat)
      requires Separate() && codes.Valid() && Window(dict[..], h) && Positions(h, floor, pos32, lookahead, dictSize) && Known()
      requires 1 <= move <= lookahead && Saved(h, floor, At() + move, savedLen, savedDist, savedLit)
      requires Parsed(h, floor, start, totalBytes, codes.Tokens(), CodedEnd(At() + move, savedLen))
      requires blockPos32 == start % 0x1_0000_0000 && ExpandBlocks(blocks) == Some(h[..start]) && Paced()
      requires floorBlocks <= |blocks| && ExpandBlocks(blocks[floorBlocks..]) == Some(h[floor..start])
      modifies this`pos32, this`lookahead, this`dictSize
      ensures Valid() && lookahead == old(lookahead) - move
    {
      hide Window, Parsed, ExpandBlocks, Saved, Holds, TokensCounted, Indexed;
      pos32 := (pos32 + move) % 0x1_0000_0000;
      lookahead := lookahead - move;
      dictSize := Least(dictSize + move, DICT_SIZE);
    }

    /** Is the code buffer full, or the block long enough while it hardly shrinks? */
    predicate TimeToFlush()
      reads this, codes
    {
      codes.next > CODE_BUF_SIZE - 8 ||
      (totalBytes > 31 * 1024 && (codes.next * 115 / 128 >= totalBytes || storedOnly))
    }

    /** By then the block is long, so flushes that no call asks for are far apart. */
    lemma LongEnough()
      requires Valid() && TimeToFlush()
      ensures totalBytes >= SPACING
    {
      hide Window, Parsed, ExpandBlocks, Saved, Holds, TokensCounted;
    }

    /** One turn of the parser. */
    method ParseOn()
      requires Valid() && lookahead >= 1 && codes.next <= CODE_BUF_SIZE - 8
      modifies this`pos32, this`lookahead, this`dictSize, this`savedLit, this`savedDist, this`savedLen, this`totalBytes
      modifies codes, codes.buf, codes.mainCount, codes.distCount
      ensures Valid() && codes.next <= CODE_BUF_SIZE - 2 && lookahead < old(lookahead)
    {
      hide Window, Parsed, ExpandBlocks, Saved, Holds, TokensCounted, GoodMatch;
      ghost var at := At();
      var dist, len, _, _ := ChooseMatch();
      var move := ParseStep(dist, len, at);
      Advance(move);
    }

    /** Puts out the block if it is time. */
    method FlushIfLong() returns (n: int)
      requires Valid() && Written() && codes.next <= CODE_BUF_SIZE - 2 && outlet.Open(writer.w.out)
      modifies this`totalBytes, this`blockPos32, this`start, this`blocks, outlet
      modifies codes, codes.buf, codes.mainCount, codes.distCount, writer, writer.w, writer.Arrays()
      ensures Valid() && Written() && codes.next <= CODE_BUF_SIZE - 8 && HandedOver(n) && outlet.Reach() == old(outlet.Reach()) && old(outlet.handed) <= outlet.handed
      ensures |old(blocks)| <= |blocks| && (n != 0 ==> |old(blocks)| < |blocks|)
      ensures |blocks| == |old(blocks)| + if old(codes.next > 65528
        || (totalBytes > 31744 && (codes.next * 115 / 128 >= totalBytes || storedOnly))) then 1 else 0
      ensures forall asked :: old(Spaced(start, writer.flushes, asked)) ==> Spaced(start, writer.flushes, asked)
    {
      hide Valid, ExpandBlocks, Compressor.Valid, BlockWriter.Valid, Spaced;
      n := 0;
      if TimeToFlush() {
        ghost var block;
        LongEnough();
        ghost var s, f, t := start, writer.flushes, totalBytes;
        n, block := FlushBlock(NoFlush, 0);
        forall asked | Spaced(s, f, asked) ensures Spaced(start, writer.flushes, asked) { SpacedOn(s, f, asked, t); }
      }
    }

    /** One turn of the loop, unless more bytes are to come and too few lie ahead. */
    method Turn(src: seq<Byte>, srcPos0: nat, flush: bool) returns (srcPos: nat, n: int, more: bool)
      requires Valid() && Written() && codes.next <= CODE_BUF_SIZE - 8 && outlet.Open(writer.w.out) && srcPos0 <= |src|
      requires srcPos0 < |src| || (flush && lookahead > 0)
      modifies this`pos32, this`lookahead, this`dictSize, this`savedLit, this`savedDist, this`savedLen
      modifies this`totalBytes, this`blockPos32, this`h, this`start, this`blocks, outlet
      modifies dict, chain, hash, codes, codes.buf, codes.mainCount, codes.distCount, writer, writer.w, writer.Arrays()
      ensures Valid() && Written() && codes.next <= CODE_BUF_SIZE - 8
      ensures srcPos0 <= srcPos <= |src| && h == old(h) + src[srcPos0..srcPos]
      ensures if more then |src| - srcPos + lookahead < |src| - srcPos0 + old(lookahead) else n == 0 && !flush && srcPos == |src|
      ensures HandedOver(n) && |old(blocks)| <= |blocks| && (n != 0 ==> |old(blocks)| < |blocks|)
      ensures outlet.Reach() == old(outlet.Reach()) && old(outlet.handed) <= outlet.handed
      ensures forall asked :: old(Spaced(start, writer.flushes, asked)) ==> Spaced(start, writer.flushes, asked)
    {
      hide Valid, ExpandBlocks, Compressor.Valid, BlockWriter.Valid, Spaced;
      AheadIsShort();
      n := 0;
      srcPos := Fill(src, srcPos0);
      more := flush || lookahead >= MAX_MATCH;
      if more {
        ParseOn();
        n := FlushIfLong();
      } else {
        NothingWaits();
      }
    }

    lemma AheadIsShort()
      requires Valid()
      ensures lookahead <= MAX_MATCH
    {
      hide Window, Parsed, ExpandBlocks, Saved, Holds, TokensCounted, Indexed;
    }

    /** The compression loop: takes in what the source has, and when flushing leaves nothing ahead, unless the
        output of a block finds no room or is refused. */
    method CompressNormal(src: seq<Byte>, flush: bool) returns (srcPos: nat, n: int)
      requires Valid() && Written() && codes.next <= CODE_BUF_SIZE - 8 && outlet.Open(writer.w.out)
      modifies this`pos32, this`lookahead, this`dictSize, this`savedLit, this`savedDist, this`savedLen
      modifies this`totalBytes, this`blockPos32, this`h, this`start, this`blocks, outlet
      modifies dict, chain, hash, codes, codes.buf, codes.mainCount, codes.distCount, writer, writer.w, writer.Arrays()
      ensures Valid() && Written() && Sturdy() && codes.next <= CODE_BUF_SIZE - 8
      ensures srcPos <= |src| && h == old(h) + src[..srcPos]
      ensures n == 0 ==> srcPos == |src| && (flush ==> lookahead == 0)
      ensures HandedOver(n) && |old(blocks)| <= |blocks| && (n != 0 ==> |old(blocks)| < |blocks|)
      ensures outlet.Reach() == old(outlet.Reach()) && old(outlet.handed) <= outlet.handed
      ensures forall asked :: old(Spaced(start, writer.flushes, asked)) ==> Spaced(start, writer.flushes, asked)
    {
      hide Valid, ExpandBlocks, Compressor.Valid, BlockWriter.Valid, Spaced;
      srcPos, n := 0, 0;
      while srcPos < |src| || (flush && lookahead > 0)
        invariant Valid() && Written() && codes.next <= CODE_BUF_SIZE - 8
        invariant n == 0 && outlet.Open(writer.w.out) && |old(blocks)| <= |blocks| && outlet.Reach() == old(outlet.Reach())
        invariant old(outlet.handed) <= outlet.handed
        invariant srcPos <= |src| && h == old(h) + src[..srcPos]
        invariant forall asked :: old(Spaced(start, writer.flushes, asked)) ==> Spaced(start, writer.flushes, asked)
        decreases |src| - srcPos + lookahead
      {
        ghost var before := srcPos;
        var more;
        srcPos, n, more := Turn(src, srcPos, flush);
        assert src[..srcPos] == src[..before] + src[before..srcPos];
        if n != 0 { return; }
        NothingWaits();
        if !more { break; }
      }
    }

    /** The blocks, the tokens not yet put out and the deferred literal stand for what the parser has passed. */
    lemma AllAccountedFor()
      requires Valid()
      ensures ExpandBlocks(blocks + [Coded(codes.Tokens())]) == Some(h[..CodedEnd(At(), savedLen)])
      ensures savedLen != 0 ==> h[..At()] == h[..At() - 1] + [savedLit]
      ensures lookahead == 0 ==> savedLen == 0
    {
      hide Window, ExpandBlocks, Holds, TokensCounted, ExpandFrom;
      BlockPutOut(h, floor, floorBlocks, start, totalBytes, codes.Tokens(), CodedEnd(At(), savedLen), blocks,
                  Coded(codes.Tokens()));
    }

    lemma AllOut()
      requires Valid() && start == |h|
      ensures ExpandBlocks(blocks) == Some(h)
    {
      hide Window, ExpandBlocks, Holds, TokensCounted, ExpandFrom, Saved;
      assert h[..|h|] == h;
    }

    /** After a full flush, when nothing lies ahead, no match reaches back any more. */
    method ForgetDictionary()
      requires Valid() && lookahead == 0 && codes.Tokens() == [] && start == |h|
      modifies this`dictSize, this`floor, this`floorBlocks, chain, hash
      ensures Valid() && floor == |h|
    {
      hide Window, Holds, TokensCounted, Parsed, Saved, ExpandBlocks, Indexed;
      ghost var f := floor;
      for i := 0 to HASH_SIZE
        modifies hash
        invariant forall x :: 0 <= x < i ==> hash[x] == 0
      {
        hash[i] := 0;
      }
      for i := 0 to DICT_SIZE
        modifies chain
      {
        chain[i] := 0;
      }
      FreshIndex(hash[..], chain[..], h);
      FreshStart(h, f, start, totalBytes, codes.Tokens(), CodedEnd(At(), savedLen), savedLen, savedDist, savedLit, blocks);
      dictSize := 0;
      floor, floorBlocks := |h|, |blocks|;
    }

    /** The end of a flushing call: the last block, and for a full flush a fresh start. */
    method EndCall(flush: Flush, adler: nat) returns (n: int)
      requires Valid() && Written() && lookahead == 0 && codes.next <= CODE_BUF_SIZE - 8 && adler == Checksum(1, h)
      requires outlet.Open(writer.w.out)
      modifies this`totalBytes, this`blockPos32, this`start, this`blocks, this`dictSize, this`floor, this`floorBlocks, outlet
      modifies chain, hash, codes, codes.buf, codes.mainCount, codes.distCount, writer, writer.w, writer.Arrays()
      ensures Valid() && start == |h| && codes.next == 1
      ensures (if flush == Finish then writer.Ended() && writer.expanded == h else Written()) && Sturdy()
      ensures n >= 0 && flush == FullFlush ==> floor == |h|
      ensures HandedOver(n) && |blocks| == |old(blocks)| + 1 && outlet.Reach() == old(outlet.Reach())
      ensures old(outlet.handed) <= outlet.handed
      ensures forall asked :: old(Spaced(start, writer.flushes, asked)) ==> Spaced(start, writer.flushes, asked + 1)
    {
      hide Valid, ExpandBlocks, BlockWriter.Valid, BlockWriter.Ended, LeadsTo, Checksum, Spaced;
      ghost var block;
      AllAccountedFor();
      ghost var s, f, t := start, writer.flushes, totalBytes;
      n, block := FlushBlock(flush, adler);
      forall asked | Spaced(s, f, asked) ensures Spaced(start, writer.flushes, asked + 1) { SpacedOn(s, f, asked, t); }
      if n >= 0 && flush == FullFlush { ForgetDictionary(); }
    }
  }

  // ----- calls

  class Stream {
    const lz: Compressor
    var status: Status
    var wantsToFinish: bool
    var finished: bool
    var adler: nat
    ghost var calls: nat

    constructor (compressor: Compressor)
      requires compressor.Valid() && compressor.Written()
      requires compressor.h == [] && compressor.start == 0 && compressor.codes.next == 1 && compressor.writer.flushes == 0
      requires compressor.outlet.Open(compressor.writer.w.out)
      ensures Sound() && lz == compressor && status == Okay && !finished && !wantsToFinish && calls == 0
    {
      hide Compressor.Valid, ExpandBlocks, BlockWriter.Valid, BlockWriter.Ended, Window, Parsed, Holds, TokensCounted, Saved;
      lz, calls := compressor, 0;
      status, wantsToFinish, finished, adler := Okay, false, false, 1;
    }

    /** What holds between calls: once finished, everything taken in has been put out and the bits end a stream. */
    ghost predicate Sound()
      reads this, lz, lz.dict, lz.chain, lz.hash, lz.codes, lz.codes.buf, lz.codes.mainCount, lz.codes.distCount, lz.writer, lz.writer.w, lz.outlet
    {
      && lz.Valid() && lz.codes.next <= CODE_BUF_SIZE - 8
      && (finished ==> lz.start == |lz.h| && lz.writer.Ended() && lz.writer.expanded == lz.h)
      && (!finished && status == Okay ==> lz.Written()) && lz.Sturdy()
      && (finished || status == Okay ==> adler == Checksum(1, lz.h) < 0x1_0000_0000)
      && Spaced(lz.start, lz.writer.flushes, calls) && Delivering()
    }

    /** All bytes put out have been handed over or wait for room, unless the callback has failed; nothing goes on then. */
    ghost predicate Delivering()
      reads this, lz.writer, lz.writer.w, lz.outlet
    {
      && (lz.outlet.failed ==> lz.outlet.callback && !finished && (status == PutBufFailed || status == BadParam))
      && (!lz.outlet.failed ==> lz.outlet.All() == lz.writer.w.out && status != PutBufFailed)
      && (lz.outlet.callback ==> lz.outlet.pending == [])
      && (status == Done ==> finished && lz.outlet.pending == [])
    }

    lemma DeliveringIs()
      requires Sound()
      ensures Delivering()
    {
    }

    /** Each call flushes at most once, except for long blocks: so many calls and bytes cannot bring the count of flushes
        round. */
    ghost predicate Moderate()
      reads this, lz
    {
      calls + |lz.h| / SPACING <= 0x1_0000_0000
    }

    lemma FewFlushes()
      requires Sound() && Moderate()
      ensures lz.writer.flushes <= 0x1_0000_0000
    {
      hide ExpandBlocks, Checksum, BlockWriter.Ended, BlockWriter.Valid, Window, Saved, Holds, TokensCounted, ExpandFrom;
      FlushesOf(lz.start, lz.writer.flushes, calls, |lz.h|);
    }

    method FlushOutput() returns (s: Status)
      modifies lz.outlet`room, lz.outlet`handed, lz.outlet`pending, this`status
      ensures s == status == if finished && lz.outlet.pending == [] then Done else Okay
      ensures lz.outlet.All() == old(lz.outlet.All()) && (lz.outlet.pending != [] ==> lz.outlet.room == 0)
      ensures |lz.outlet.handed| == |old(lz.outlet.handed)| + Least(old(lz.outlet.room), |old(lz.outlet.pending)|)
      ensures (!lz.outlet.callback ==> lz.outlet.Reach() == old(lz.outlet.Reach())) && old(lz.outlet.handed) <= lz.outlet.handed
      ensures old(lz.outlet.room) == 0 ==> lz.outlet.pending == old(lz.outlet.pending)
    {
      lz.outlet.Drain();
      status := if finished && lz.outlet.pending == [] then Done else Okay;
      s := status;
    }

    method UpdateChecksum(taken: seq<Byte>, ghost before: seq<nat>)
      requires adler == Checksum(1, before) < 0x1_0000_0000
      modifies this`adler
      ensures adler == Checksum(1, before + taken) < 0x1_0000_0000
    {
      adler := ComputeAdler32(adler, Some(taken));
      ChecksumInPieces(1, before, taken);
      ChecksumFits(before + taken);
    }

    /** What a call has done that takes in data: all it was asked for, unless a block put out on the way found no room or was
        refused. */
    twostate predicate Did(src: seq<Byte>, flush: Flush, consumed: nat, held: bool)
      reads this, lz, lz.outlet
    {
      && (held ==> |old(lz.blocks)| < |lz.blocks| && !finished && (lz.outlet.failed || lz.outlet.pending != []))
      && (!held && !lz.outlet.failed ==>
            && consumed == |src| && (flush != NoFlush ==> lz.start == |lz.h|)
            && finished == (flush == Finish) && (flush == FullFlush ==> lz.floor == |lz.h|))
    }

    /** The end of a call that takes in data: the flush it asks for, if all is there, and what can be handed over. */
    method EndIfAll(flush: Flush, all: bool) returns (s: Status)
      requires Sound() && status == Okay && !finished && !lz.outlet.failed && Spaced(lz.start, lz.writer.flushes, calls - 1)
      requires all ==> lz.lookahead == 0 && lz.outlet.pending == []
      modifies this`status, this`finished, lz, lz.chain, lz.hash, lz.codes, lz.codes.buf, lz.codes.mainCount, lz.codes.distCount
      modifies lz.writer, lz.writer.w, lz.writer.Arrays(), lz.outlet
      ensures Sound() && lz.h == old(lz.h) && s == status && adler == old(adler) && |old(lz.blocks)| <= |lz.blocks|
      ensures s == if lz.outlet.failed then PutBufFailed else if finished && lz.outlet.pending == [] then Done else Okay
      ensures all && !lz.outlet.failed ==>
        lz.start == |lz.h| && finished == (flush == Finish) && (flush == FullFlush ==> lz.floor == |lz.h|)
      ensures !all ==> !finished && !lz.outlet.failed && lz.blocks == old(lz.blocks)
      ensures (!all && old(lz.outlet.room) == 0 ==> lz.outlet.pending == old(lz.outlet.pending))
      ensures (!lz.outlet.callback ==> lz.outlet.Reach() == old(lz.outlet.Reach())) && old(lz.outlet.handed) <= lz.outlet.handed
      ensures lz.outlet.pending != [] ==> lz.outlet.room == 0
    {
      hide Compressor.Valid, Compressor.Written, Compressor.Sturdy, ExpandBlocks, Checksum, BlockWriter.Valid, BlockWriter.Ended, Spaced;
      if all {
        var n := lz.EndCall(flush, adler);
        if n < 0 {
          status := PutBufFailed;
          return status;
        }
        finished := flush == Finish;
      }
      s := FlushOutput();
    }

    /** The rest of a call that takes in data. */
    method TakeIn(src: seq<Byte>, flush: Flush) returns (consumed: nat, s: Status, ghost held: bool)
      requires Sound() && status == Okay && !finished && lz.outlet.Open(lz.writer.w.out)
      requires Spaced(lz.start, lz.writer.flushes, calls - 1)
      modifies this`status, this`adler, this`finished, lz, lz.dict, lz.chain, lz.hash, lz.codes, lz.codes.buf, lz.codes.mainCount, lz.codes.distCount
      modifies lz.writer, lz.writer.w, lz.writer.Arrays(), lz.outlet
      ensures Sound() && consumed <= |src| && lz.h == old(lz.h) + src[..consumed] && s == status
      ensures s == if lz.outlet.failed then PutBufFailed else if finished && lz.outlet.pending == [] then Done else Okay
      ensures Did(src, flush, consumed, held) && (!lz.outlet.callback ==> lz.outlet.Reach() == old(lz.outlet.Reach()))
      ensures old(lz.outlet.handed) <= lz.outlet.handed
      ensures lz.outlet.pending != [] ==> lz.outlet.room == 0
    {
      hide Compressor.Valid, Compressor.Written, Compressor.Sturdy, ExpandBlocks, Checksum, BlockWriter.Valid, BlockWriter.Ended, Spaced;
      NoneAsked(lz.start, lz.writer.flushes, calls);
      var n;
      ghost var before := lz.h;
      consumed, n := lz.CompressNormal(src, flush != NoFlush);
      held := n != 0;
      if n < 0 {
        status := PutBufFailed;
        return consumed, status, held;
      }
      UpdateChecksum(src[..consumed], before);
      s := EndIfAll(flush, flush != NoFlush && lz.lookahead == 0 && consumed == |src| && lz.outlet.pending == []);
    }

    /** A call that only hands over what an earlier one has left. */
    twostate predicate OnlyHandedOver(room: nat)
      reads this, lz, lz.outlet
    {
      && lz.h == old(lz.h) && lz.blocks == old(lz.blocks) && finished == old(finished) && lz.outlet.failed == old(lz.outlet.failed)
      && |lz.outlet.handed| == |old(lz.outlet.handed)| + Least(room, |old(lz.outlet.pending)|)
    }

    /** A call that is not refused: first what is left over is handed over; then data are taken in. */
    method GoOn(src: seq<Byte>, flush: Flush, room: nat) returns (consumed: nat, s: Status, ghost held: bool)
      requires Sound() && status == Okay && Spaced(lz.start, lz.writer.flushes, calls - 1)
      modifies this`status, this`adler, this`finished, lz, lz.dict, lz.chain, lz.hash, lz.codes, lz.codes.buf, lz.codes.mainCount, lz.codes.distCount
      modifies lz.writer, lz.writer.w, lz.writer.Arrays(), lz.outlet
      ensures Sound() && consumed <= |src| && lz.h == old(lz.h) + src[..consumed] && s == status
      ensures s == if lz.outlet.failed then PutBufFailed else if finished && lz.outlet.pending == [] then Done else Okay
      ensures old(lz.outlet.handed) <= lz.outlet.handed
      ensures if old(lz.outlet.pending != [] || finished) then consumed == 0 && OnlyHandedOver(room) else Did(src, flush, consumed, held)
      ensures !lz.outlet.callback ==>
        |lz.outlet.handed| + lz.outlet.room == |old(lz.outlet.handed)| + room && (lz.outlet.pending != [] ==> lz.outlet.room == 0)
    {
      hide Compressor.Valid, Compressor.Written, Compressor.Sturdy, ExpandBlocks, Checksum, BlockWriter.Valid, BlockWriter.Ended, Spaced;
      lz.outlet.Give(room);
      held := false;
      if |lz.outlet.pending| > 0 || finished {
        s := FlushOutput();
        consumed := 0;
      } else {
        consumed, s, held := TakeIn(src, flush);
      }
    }

    /** A finished stream. */
    lemma AllDone()
      requires Sound() && finished
      ensures ExpandBlocks(lz.blocks) == Some(lz.h) && adler == Checksum(1, lz.h)
      ensures (lz.writer.zlib ==> lz.writer.flushes <= 0x1_0000_0000) ==>
        Decompress(lz.writer.zlib, lz.writer.w.out) == Some(lz.h)
    {
      hide Compressor.Valid, ExpandBlocks, Checksum, BlockWriter.Ended, Decompress;
      lz.AllOut();
      lz.writer.EndedMeans();
    }

    /** A call is refused after a failure, after the end, and if it takes back the wish to finish. */
    ghost predicate Refuses(flush: Flush)
      reads this
    {
      status != Okay || (wantsToFinish && flush != Finish)
    }

    /** One call: however the input is split over calls, what has been put out and what is pending stand for the
        bytes taken in; and once finished, the blocks decompress to exactly those. A call that is not held up does all that it
        is asked for. */
    method Compress(src: seq<Byte>, flush: Flush, room: nat) returns (consumed: nat, s: Status, ghost held: bool)
      requires Sound()
      modifies this, lz, lz.dict, lz.chain, lz.hash, lz.codes, lz.codes.buf, lz.codes.mainCount, lz.codes.distCount
      modifies lz.writer, lz.writer.w, lz.writer.Arrays(), lz.outlet
      ensures Sound() && consumed <= |src| && lz.h == old(lz.h) + src[..consumed] && s == status
      ensures finished ==> ExpandBlocks(lz.blocks) == Some(lz.h) && adler == Checksum(1, lz.h)
      ensures finished && (lz.writer.zlib ==> lz.writer.flushes <= 0x1_0000_0000) ==>
        Decompress(lz.writer.zlib, lz.writer.w.out) == Some(lz.h)
      ensures old(lz.outlet.handed) <= lz.outlet.handed
      ensures calls == old(calls) + 1 && wantsToFinish == (old(wantsToFinish) || (!old(Refuses(flush)) && flush == Finish))
      ensures Moderate() ==> lz.writer.flushes <= 0x1_0000_0000
      ensures old(Refuses(flush)) ==> s == BadParam && consumed == 0 && OnlyHandedOver(0) && lz.outlet.pending == old(lz.outlet.pending)
      ensures !old(Refuses(flush)) ==>
        s == if lz.outlet.failed then PutBufFailed else if finished && lz.outlet.pending == [] then Done else Okay
      ensures !old(Refuses(flush)) && old(lz.outlet.pending != [] || finished) ==> consumed == 0 && OnlyHandedOver(room)
      ensures !old(Refuses(flush)) && old(lz.outlet.pending == [] && !finished) ==> Did(src, flush, consumed, held)
      ensures !old(Refuses(flush)) && !lz.outlet.callback ==>
        |lz.outlet.handed| + lz.outlet.room == |old(lz.outlet.handed)| + room && (lz.outlet.pending != [] ==> lz.outlet.room == 0)
    {
      hide Compressor.Valid, Compressor.Written, Compressor.Sturdy, ExpandBlocks, Checksum, BlockWriter.Valid, BlockWriter.Ended,
        Decompress, Spaced;
      NoneAsked(lz.start, lz.writer.flushes, calls + 1);
      calls := calls + 1;
      held := false;
      if status != Okay || (wantsToFinish && flush != Finish) {
        status, consumed, s := BadParam, 0, BadParam;
      } else {
        wantsToFinish := wantsToFinish || flush == Finish;
        consumed, s, held := GoOn(src, flush, room);
      }
      if finished { AllDone(); }
      if Moderate() { FewFlushes(); }
    }
  }
}
