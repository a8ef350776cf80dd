/** The inflater's bit buffer, filled from the input byte by byte. */
module BitReaders {
  import opened Sequences
  import opened Wrappers
  import opened Arithmetic
  import opened PrefixCodes
  import opened CanonicalCodes
  import opened BitBuffers
  import opened InflateTable
  import opened DynamicHeader
  import opened DeflateBlock
  import opened Inflate

  /** The bits not yet used: those in the buffer, and those of the bytes not yet read. */
  ghost function Ahead(buffer: nat, count: nat, input: seq<nat>, pos: nat): (bits: Word)
    requires pos <= |input|
    ensures |bits| == count + 8 * (|input| - pos)
  {
    LowBits(buffer, count) + BitsOfBytes(input, pos, |input| - pos)
  }

  lemma {:induction false} BitsFromFirst(input: seq<nat>, pos: nat, k: nat)
    requires k >= 1
    ensures BitsOfBytes(input, pos, k) == LowBits(ByteAt(input, pos), 8) + BitsOfBytes(input, pos + 1, k - 1)
  {
    hide LowBits, ByteAt;
    BitsOfOneMore(input, pos, k - 1, k);
    if k > 1 {
      BitsFromFirst(input, pos, k - 1);
      BitsOfOneMore(input, pos + 1, k - 2, k - 1);
      JoinThree(LowBits(ByteAt(input, pos), 8), BitsOfBytes(input, pos + 1, k - 2), LowBits(ByteAt(input, pos + k - 1), 8));
    } else {
      assert BitsOfBytes(input, pos, 0) == [] && BitsOfBytes(input, pos + 1, 0) == [];
      assert [] + LowBits(ByteAt(input, pos), 8) == LowBits(ByteAt(input, pos), 8) + [];
    }
  }

  /** Moving a byte from the input to the buffer. */
  lemma ByteMoved(buffer: nat, count: nat, input: seq<nat>, pos: nat, buffer': nat)
    requires Bytes(input) && pos < |input| && buffer < Pow2(count) && buffer' == buffer + input[pos] * Pow2(count)
    ensures buffer' < Pow2(count + 8) && Ahead(buffer', count + 8, input, pos + 1) == Ahead(buffer, count, input, pos)
  {
    hide LowBits, Pow2, BitsOfBytes;
    LoadByte(buffer, count, input[pos]);
    BitsFromFirst(input, pos, |input| - pos);
    JoinThree(LowBits(buffer, count), LowBits(input[pos], 8), BitsOfBytes(input, pos + 1, |input| - pos - 1));
  }

  /** Taking bits off the bottom of the buffer. */
  lemma BitsTaken(buffer: nat, count: nat, input: seq<nat>, pos: nat, n: nat)
    requires pos <= |input| && buffer < Pow2(count) && n <= count
    ensures Shifted(buffer, n) < Pow2(count - n)
    ensures GetBits(Ahead(buffer, count, input, pos), n) == Read(buffer % Pow2(n), Ahead(Shifted(buffer, n), count - n, input, pos))
  {
    hide LowBits, Pow2, BitsOfBytes, Shifted, Reversed;
    var low, all := LowBits(buffer, count), Ahead(buffer, count, input, pos);
    DropBits(buffer, count, n);
    LowBitsPrefix(buffer, count, n);
    LowBitsMod(buffer, n);
    RemainderFits(buffer, n);
    ReversedOfLowBits(buffer % Pow2(n), n);
    assert all[..n] == low[..n];
    assert all[n..] == low[n..] + BitsOfBytes(input, pos, |input| - pos);
  }

  lemma {:induction false} BitsOfParts(input: seq<nat>, pos: nat, a: nat, b: nat)
    ensures BitsOfBytes(input, pos, a + b) == BitsOfBytes(input, pos, a) + BitsOfBytes(input, pos + a, b)
  {
    hide LowBits, ByteAt;
    if b == 0 {
      assert BitsOfBytes(input, pos, a) + [] == BitsOfBytes(input, pos, a);
    } else {
      BitsOfParts(input, pos, a, b - 1);
      BitsOfOneMore(input, pos, a + b - 1, a + b);
      BitsOfOneMore(input, pos + a, b - 1, b);
      JoinThree(BitsOfBytes(input, pos, a), BitsOfBytes(input, pos + a, b - 1), LowBits(ByteAt(input, pos + a + b - 1), 8));
    }
  }

  // ----- one symbol

  /** A code that is in two bit strings, one of which goes on where the other ends. */
  lemma SameSymbol(sizes: seq<nat>, a: Word, b: Word)
    requires Fits(sizes, MAX_BITS) && Decode(sizes, MAX_BITS, a).Symbol? && Decode(sizes, MAX_BITS, a).len <= |b|
    requires a <= b || b <= a
    ensures Decode(sizes, MAX_BITS, b) == Decode(sizes, MAX_BITS, a)
  {
    hide DecodeFrom, Fits, CodeWord;
    DecodedWord(sizes, a);
    var s := Decode(sizes, MAX_BITS, a).sym;
    assert CodeWord(sizes, s) <= b;
    DecodeReachesWord(sizes, MAX_BITS, s, a, 1);
    DecodeReachesWord(sizes, MAX_BITS, s, b, 1);
  }

  /** Bits of the same stream, up to different ends. */
  lemma Comparable(low: Word, input: seq<nat>, pos: nat, a: nat, b: nat)
    requires a <= b
    ensures low + BitsOfBytes(input, pos, a) <= low + BitsOfBytes(input, pos, b)
    ensures low + BitsOfBytes(input, pos, b) == (low + BitsOfBytes(input, pos, a)) + BitsOfBytes(input, pos + a, b - a)
  {
    BitsOfParts(input, pos, a, b - a);
  }

  lemma ReadIsExpected(sizes: seq<nat>, buffer: nat, count: nat, input: seq<nat>, pos: nat)
    requires pos <= |input| && Fits(sizes, MAX_BITS) && ReadSymbol(Ahead(buffer, count, input, pos), sizes).Read?
    ensures Expected(sizes, buffer, count, input, pos)
  {
    hide LowBits, Decode, Fits, BitsOfBytes;
    var low, left := LowBits(buffer, count), |input| - pos;
    if left <= 2 { Comparable(low, input, pos, left, 2); } else { Comparable(low, input, pos, 2, left); }
    CodeIsShort(sizes, Ahead(buffer, count, input, pos));
    SameSymbol(sizes, Ahead(buffer, count, input, pos), low + BitsOfBytes(input, pos, 2));
  }

  lemma CodeIsShort(sizes: seq<nat>, bits: Word)
    requires Fits(sizes, MAX_BITS) && Decode(sizes, MAX_BITS, bits).Symbol?
    ensures 1 <= Decode(sizes, MAX_BITS, bits).len <= MAX_BITS
  {
    hide DecodeFrom, Fits;
    DecodedWord(sizes, bits);
    FitsSize(sizes, Decode(sizes, MAX_BITS, bits).sym);
  }

  /** What the table finds in the bits read so far is the symbol that all bits ahead start with, and no byte has
      been made up. */
  lemma SymbolIsRead(sizes: seq<nat>, buffer: nat, count: nat, input: seq<nat>, pos: nat, k: nat, stream: Word, sym: nat,
                     len: nat, buffer': nat, count': nat, pos': nat)
    requires pos <= |input| && Fits(sizes, MAX_BITS) && ReadSymbol(Ahead(buffer, count, input, pos), sizes).Read?
    requires stream == LowBits(buffer, count) + BitsOfBytes(input, pos, k)
    requires pos' == if pos + k <= |input| then pos + k else |input|
    requires Decode(sizes, MAX_BITS, stream) == Symbol(sym, len) && len <= |stream|
    requires count' == |stream| - len && LowBits(buffer', count') == stream[len..]
    requires if |input| - pos < 2 then k > 0 ==> Decode(sizes, MAX_BITS, stream[..|stream| - 8]) == NoSymbol else k <= 2
    ensures ReadSymbol(Ahead(buffer, count, input, pos), sizes) == Read(sym, Ahead(buffer', count', input, pos'))
  {
    hide LowBits, Decode, Fits, BitsOfBytes;
    var low, left, all := LowBits(buffer, count), |input| - pos, Ahead(buffer, count, input, pos);
    if k > left {
      var fewer := low + BitsOfBytes(input, pos, k - 1);
      Comparable(low, input, pos, left, k - 1);
      Comparable(low, input, pos, k - 1, k);
      assert stream[..|stream| - 8] == fewer;
      SameSymbol(sizes, all, fewer);
      assert false;
    } else {
      Comparable(low, input, pos, k, left);
      SameSymbol(sizes, stream, all);
      assert all[len..] == stream[len..] + BitsOfBytes(input, pos + k, left - k);
    }
  }

  lemma ByteAhead(buffer: nat, input: seq<nat>, pos: nat)
    requires Bytes(input) && pos < |input|
    ensures GetBits(Ahead(buffer, 0, input, pos), 8) == Read(input[pos], Ahead(buffer, 0, input, pos + 1))
  {
    hide LowBits, BitsOfBytes, Reversed, GetBits;
    BitsFromFirst(input, pos, |input| - pos);
    assert Pow2(8) == 256;
    GetBitsOf(input[pos], 8, BitsOfBytes(input, pos + 1, |input| - pos - 1));
    assert Ahead(buffer, 0, input, pos) == BitsOfBytes(input, pos, |input| - pos);
    assert Ahead(buffer, 0, input, pos + 1) == BitsOfBytes(input, pos + 1, |input| - pos - 1);
  }

  class BitReader {
    const input: seq<nat>
    var pos: nat
    var buffer: nat
    var count: nat

    ghost predicate Valid()
      reads this
    {
      Bytes(input) && pos <= |input| && buffer < Pow2(count)
    }

    ghost function Rest(): (bits: Word)
      reads this
      requires pos <= |input|
      ensures |bits| == count + 8 * (|input| - pos)
    {
      Ahead(buffer, count, input, pos)
    }

    constructor (bytes: seq<nat>)
      requires Bytes(bytes)
      ensures Valid() && Rest() == ByteBits(bytes) && pos == 0 && count == 0 && input == bytes
    {
      input, pos, buffer, count := bytes, 0, 0, 0;
      new;
      assert Pow2(0) == 1;
      assert [] + ByteBits(bytes) == ByteBits(bytes);
    }

    /** Reads bytes until there are n bits. */
    method NeedBits(n: nat)
      requires Valid() && n <= |Rest()|
      modifies this
      ensures Valid() && Rest() == old(Rest()) && n <= count
    {
      hide Pow2, Ahead, Bytes;
      while count < n
        invariant Valid() && Rest() == old(Rest())
        decreases |input| - pos
      {
        var unit := Power(count);
        ByteMoved(buffer, count, input, pos, buffer + input[pos] * unit);
        buffer := buffer + input[pos] * unit;
        pos, count := pos + 1, count + 8;
      }
    }

    method GetBits(n: nat) returns (v: nat)
      requires Valid() && n <= |Rest()|
      modifies this
      ensures Valid() && Read(v, Rest()) == old(DynamicHeader.GetBits(Rest(), n))
    {
      hide Pow2, Ahead, Bytes, DynamicHeader.GetBits, Shifted;
      NeedBits(n);
      BitsTaken(buffer, count, input, pos, n);
      var unit := Power(n);
      v := buffer % unit;
      buffer, count := Shifted(buffer, n), count - n;
    }

    /** The next byte, from the buffer as long as there is one in it. */
    method NextByte() returns (c: nat)
      requires Valid() && |Rest()| >= 8
      modifies this
      ensures Valid() && Read(c, Rest()) == old(DynamicHeader.GetBits(Rest(), 8))
    {
      hide Ahead, Bytes, DynamicHeader.GetBits, Pow2;
      if count != 0 {
        c := GetBits(8);
      } else {
        c := input[pos];
        ByteAhead(buffer, input, pos);
        pos := pos + 1;
      }
    }

    /** Drops what is left of a byte. */
    method SkipToByte()
      requires Valid()
      modifies this
      ensures Valid() && Rest() == old(Aligned(Rest())) && count % 8 == 0
    {
      hide Pow2, Ahead, Bytes, Shifted;
      BitsTaken(buffer, count, input, pos, count % 8);
      buffer, count := Shifted(buffer, count % 8), count - count % 8;
    }
  }
}
