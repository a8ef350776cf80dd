/** Bits in a buffer and in bytes, the lowest first (section 3.1.1 of RFC 1951). */
module BitBuffers {
  import opened Sequences
  import opened Arithmetic
  import opened PrefixCodes
  import opened CanonicalCodes

  /** The n lowest bits of v, lowest first. */
  function LowBits(v: nat, n: nat): (word: Word)
    ensures |word| == n
  {
    if n == 0 then [] else [v % 2 == 1] + LowBits(v / 2, n - 1)
  }

  lemma {:induction false} ReversedOfLowBits(v: nat, n: nat)
    requires v < Pow2(n)
    ensures Reversed(LowBits(v, n)) == v
  {
    if n > 0 { ReversedOfLowBits(v / 2, n - 1); }
  }

  lemma {:induction false} ReversedJoin(a: Word, b: Word)
    ensures Reversed(a + b) == Reversed(a) + Pow2(|a|) * Reversed(b)
  {
    if a == [] {
      assert a + b == b;
    } else {
      assert (a + b)[1..] == a[1..] + b;
      ReversedJoin(a[1..], b);
      TwiceBoth(Pow2(|a| - 1), Reversed(b));
    }
  }

  lemma TwiceBoth(a: nat, b: nat)
    ensures (2 * a) * b == 2 * (a * b)
  {
  }

  lemma {:induction false} LowBitsOfReversed(word: Word)
    ensures LowBits(Reversed(word), |word|) == word
    ensures Reversed(word) < Pow2(|word|)
  {
    hide LowBits;
    if word == [] {
      NoLowBits(0);
    } else {
      LowBitsOfReversed(word[1..]);
      LowestBit(word[0], Reversed(word[1..]), |word| - 1);
      assert word == [word[0]] + word[1..];
    }
  }

  lemma NoLowBits(v: nat)
    ensures LowBits(v, 0) == []
  {
  }

  lemma LowestBit(b: bool, r: nat, n: nat)
    ensures LowBits((if b then 1 else 0) + 2 * r, n + 1) == [b] + LowBits(r, n)
  {
    var v := (if b then 1 else 0) + 2 * r;
    assert v % 2 == (if b then 1 else 0) && v / 2 == r;
  }

  lemma {:induction false} LowBitsPrefix(v: nat, n: nat, k: nat)
    requires k <= n
    ensures LowBits(v, n)[..k] == LowBits(v, k)
  {
    if k > 0 {
      LowBitsPrefix(v / 2, n - 1, k - 1);
      assert LowBits(v, n)[..k] == [v % 2 == 1] + LowBits(v / 2, n - 1)[..k - 1];
    }
  }

  /** Bit k of the buffer. */
  lemma {:induction false} LowBitsAt(v: nat, n: nat, k: nat)
    requires k < n
    ensures LowBits(v, n)[k] == (v / Pow2(k) % 2 == 1)
  {
    if k > 0 {
      LowBitsAt(v / 2, n - 1, k - 1);
      DivDiv(v, Pow2(k - 1));
    }
  }

  lemma HalfOf(v: nat, unit: nat, q: nat, r: nat)
    requires unit > 0 && v == (2 * unit) * q + r && r < 2 * unit
    ensures v / 2 == unit * q + r / 2 && r / 2 < unit && v % 2 == r % 2
  {
    assert (2 * unit) * q == 2 * (unit * q);
  }

  lemma DivDiv(v: nat, unit: nat)
    requires unit > 0
    ensures v / 2 / unit == v / (2 * unit)
    ensures v / 2 % unit == v % (2 * unit) / 2 && v % (2 * unit) % 2 == v % 2
  {
    var q, r := DivParts(v, 2 * unit);
    HalfOf(v, unit, q, r);
    DivUnique(v / 2, unit, q, r / 2);
  }

  lemma {:induction false} LowBitsMod(v: nat, n: nat)
    ensures LowBits(v % Pow2(n), n) == LowBits(v, n)
  {
    if n > 0 {
      LowBitsMod(v / 2, n - 1);
      DivDiv(v, Pow2(n - 1));
    }
  }

  /** Equal prefixes of k bits are equal remainders modulo 2^k. */
  lemma {:induction false} PrefixIsRemainder(v: nat, n: nat, word: Word)
    requires |word| <= n
    ensures word <= LowBits(v, n) <==> v % Pow2(|word|) == Reversed(word)
  {
    var k := |word|;
    LowBitsPrefix(v, n, k);
    LowBitsMod(v, k);
    LowBitsOfReversed(word);
    if v % Pow2(k) == Reversed(word) {
      assert LowBits(v, n)[..k] == word;
    }
    if word <= LowBits(v, n) {
      assert LowBits(v, n)[..k] == word;
      ReversedOfLowBits(v % Pow2(k), k);
    }
  }

  lemma {:induction false} DropBits(buf: nat, n: nat, len: nat)
    requires len <= n && buf < Pow2(n)
    ensures Shifted(buf, len) < Pow2(n - len) && LowBits(Shifted(buf, len), n - len) == LowBits(buf, n)[len..]
  {
    if len > 0 {
      DropBits(buf, n, len - 1);
      ShiftOnce(buf, len - 1);
      assert LowBits(buf, n)[len - 1..][1..] == LowBits(buf, n)[len..];
    } else {
      assert Pow2(0) == 1 && Shifted(buf, 0) == buf;
    }
  }

  // ----- bytes

  /** The input, which goes on with zeros past its end. */
  function ByteAt(input: seq<nat>, pos: nat): (b: nat)
  {
    if pos < |input| then input[pos] else 0
  }

  function BitsOfBytes(input: seq<nat>, pos: nat, k: nat): (bits: Word)
    ensures |bits| == 8 * k
  {
    if k == 0 then [] else BitsOfBytes(input, pos, k - 1) + LowBits(ByteAt(input, pos + k - 1), 8)
  }

  /** Bits put above the n bits of a buffer. */
  lemma {:induction false} LoadBits(buf: nat, n: nat, c: nat, w: nat)
    requires buf < Pow2(n) && c < Pow2(w)
    ensures LowBits(buf + c * Pow2(n), n + w) == LowBits(buf, n) + LowBits(c, w)
    ensures buf + c * Pow2(n) < Pow2(n + w)
  {
    if n > 0 {
      LoadBits(buf / 2, n - 1, c, w);
      HalfLoaded(buf, c, Pow2(n - 1));
      hide LowBits;
      LowBitsUnfold(buf, n);
      LowBitsUnfold(buf + c * Pow2(n), n + w);
      JoinLoaded(buf % 2 == 1, LowBits(buf / 2, n - 1), LowBits(c, w));
    } else {
      assert Pow2(0) == 1;
      assert LowBits(buf, 0) + LowBits(c, w) == LowBits(c, w);
    }
  }

  lemma LoadByte(buf: nat, n: nat, c: nat)
    requires buf < Pow2(n) && c < 256
    ensures LowBits(buf + c * Pow2(n), n + 8) == LowBits(buf, n) + LowBits(c, 8)
    ensures buf + c * Pow2(n) < Pow2(n + 8)
  {
    assert Pow2(8) == 256;
    LoadBits(buf, n, c, 8);
  }

  lemma LowBitsUnfold(v: nat, n: nat)
    requires n > 0
    ensures LowBits(v, n) == [v % 2 == 1] + LowBits(v / 2, n - 1)
  {
  }

  lemma HalfLoaded(buf: nat, c: nat, unit: nat)
    ensures (buf + c * (2 * unit)) % 2 == buf % 2
    ensures (buf + c * (2 * unit)) / 2 == buf / 2 + c * unit
    ensures (buf + c * (2 * unit)) <= 2 * (buf / 2 + c * unit) + 1
  {
    assert c * (2 * unit) == 2 * (c * unit);
  }

  lemma JoinLoaded(b: bool, x: Word, y: Word)
    ensures [b] + (x + y) == [b] + x + y
  {
  }

  /** The buffer after k more bytes have been read. */
  ghost predicate Loaded(buf: nat, n: nat, input: seq<nat>, pos: nat, k: nat, buf': nat, n': nat, pos': nat) {
    && n' == n + 8 * k && buf' < Pow2(n')
    && LowBits(buf', n') == LowBits(buf, n) + BitsOfBytes(input, pos, k)
    && pos' == if pos + k <= |input| then pos + k else |input|
  }

  predicate Bytes(input: seq<nat>) {
    forall i :: 0 <= i < |input| ==> input[i] < 256
  }

  lemma LoadedNothing(buf: nat, n: nat, input: seq<nat>, pos: nat)
    requires buf < Pow2(n) && pos <= |input|
    ensures Loaded(buf, n, input, pos, 0, buf, n, pos)
  {
    assert LowBits(buf, n) + [] == LowBits(buf, n);
  }

  lemma LoadedMore(buf: nat, n: nat, input: seq<nat>, pos: nat, k: nat, buf': nat, n': nat, pos': nat, more: nat, c: nat, buf2: nat)
    requires Bytes(input) && pos <= |input| && Loaded(buf, n, input, pos, k, buf', n', pos') && more == k + 1
    requires c == ByteAt(input, pos') && buf2 == buf' + c * Pow2(n')
    ensures Loaded(buf, n, input, pos, more, buf2, n' + 8, if pos' < |input| then pos' + 1 else pos')
    ensures LowBits(buf2, n') == LowBits(buf', n')
  {
    hide LowBits, Pow2, BitsOfBytes, ByteAt, Bytes;
    ByteAtEnd(input, pos + k, pos');
    LoadByte(buf', n', c);
    LowBitsPrefix(buf2, n' + 8, n');
    BitsOfOneMore(input, pos, k, more);
    JoinThree(LowBits(buf, n), BitsOfBytes(input, pos, k), LowBits(c, 8));
    FrontOfJoin(LowBits(buf', n'), LowBits(c, 8));
  }

  lemma ByteAtEnd(input: seq<nat>, want: nat, pos: nat)
    requires Bytes(input) && pos == if want <= |input| then want else |input|
    ensures ByteAt(input, pos) == ByteAt(input, want) < 256
  {
  }

  lemma BitsOfOneMore(input: seq<nat>, pos: nat, k: nat, more: nat)
    requires more == k + 1
    ensures BitsOfBytes(input, pos, more) == BitsOfBytes(input, pos, k) + LowBits(ByteAt(input, pos + k), 8)
  {
  }

  lemma FrontOfJoin(x: Word, y: Word)
    ensures (x + y)[..|x|] == x
  {
  }

  lemma LoadedStream(buf: nat, n: nat, input: seq<nat>, pos: nat, k: nat, buf': nat, n': nat, pos': nat)
    requires Loaded(buf, n, input, pos, k, buf', n', pos')
    ensures n' == n + 8 * k && buf' < Pow2(n') && LowBits(buf', n') == LowBits(buf, n) + BitsOfBytes(input, pos, k)
    ensures pos' == if pos + k <= |input| then pos + k else |input|
  {
  }

  method LoadOne(buf: nat, n: nat, input: seq<nat>, pos: nat, ghost buf0: nat, ghost n0: nat, ghost pos0: nat, ghost k: nat)
      returns (buf': nat, n': nat, pos': nat)
    requires Bytes(input) && pos0 <= |input| && Loaded(buf0, n0, input, pos0, k, buf, n, pos)
    ensures Loaded(buf0, n0, input, pos0, k + 1, buf', n', pos') && n' == n + 8
    ensures LowBits(buf', n) == LowBits(buf, n)
  {
    var c := 0;
    pos' := pos;
    if pos < |input| {
      c := input[pos];
      pos' := pos + 1;
    }
    var unit := Power(n);
    buf', n' := buf + c * unit, n + 8;
    LoadedMore(buf0, n0, input, pos0, k, buf, n, pos, k + 1, c, buf');
  }

  /** Taking a byte off the bottom of a buffer. */
  lemma {:induction false} TakeByte(v: nat, n: nat)
    requires v < Pow2(n + 8)
    ensures LowBits(v, n + 8) == LowBits(v % 256, 8) + LowBits(v / 256, n)
    ensures v / 256 < Pow2(n)
  {
    assert Pow2(8) == 256;
    Pow2Add(n, 8);
    LoadBits(v % 256, 8, v / 256, n);
  }

  lemma {:induction false} BitsOfBytesSnoc(bytes: seq<nat>, c: nat)
    ensures BitsOfBytes(bytes + [c], 0, |bytes| + 1) == BitsOfBytes(bytes, 0, |bytes|) + LowBits(c, 8)
  {
    BitsOfFront(bytes, [c], |bytes|);
  }

  lemma {:induction false} BitsOfFront(bytes: seq<nat>, more: seq<nat>, k: nat)
    requires k <= |bytes|
    ensures BitsOfBytes(bytes + more, 0, k) == BitsOfBytes(bytes, 0, k)
  {
    if k > 0 { BitsOfFront(bytes, more, k - 1); }
  }

  /** The state of a bit writer, to go back to. */
  datatype Mark = Mark(out: seq<nat>, buffer: nat, count: nat)

  ghost predicate GoodMark(m: Mark) {
    m.count < 8 && m.buffer < Pow2(m.count) && Bytes(m.out)
  }

  ghost function MarkBits(m: Mark): (word: Word)
    ensures |word| == 8 * |m.out| + m.count
  {
    BitsOfBytes(m.out, 0, |m.out|) + LowBits(m.buffer, m.count)
  }

  /** The compressor's bit writer. Its output buffer is not bounded here. */
  class BitWriter {
    var out: seq<nat>
    var buffer: nat
    var count: nat

    ghost predicate Valid()
      reads this
    {
      count < 8 && GoodMark(Mark(out, buffer, count))
    }

    /** All bits put so far. */
    ghost function Bits(): (word: Word)
      reads this
      ensures |word| == 8 * |out| + count
    {
      MarkBits(Mark(out, buffer, count))
    }

    ghost function Now(): Mark
      reads this
    {
      Mark(out, buffer, count)
    }

    method Save() returns (m: Mark)
      requires Valid()
      ensures GoodMark(m) && m.count < 8 && MarkBits(m) == Bits() && m.out == out && m.count == count
    {
      m := Mark(out, buffer, count);
    }

    method Restore(m: Mark)
      requires GoodMark(m)
      modifies this
      ensures Valid() && Bits() == MarkBits(m) && out == m.out && count == m.count
    {
      out, buffer, count := m.out, m.buffer, m.count;
    }

    constructor ()
      ensures Valid() && Bits() == []
    {
      out, buffer, count := [], 0, 0;
    }

    method PutBits(b: nat, len: nat)
      requires Valid() && b < Pow2(len) && len <= 16
      modifies this
      ensures Valid() && Bits() == old(Bits()) + LowBits(b, len)
    {
      hide Pow2, LowBits, BitsOfBytes;
      LoadBits(buffer, count, b, len);
      ghost var before := Bits();
      var unit := Power(count);
      buffer := buffer + b * unit;
      count := count + len;
      WithinWord(buffer, count);
      JoinThree(BitsOfBytes(out, 0, |out|), LowBits(old(buffer), old(count)), LowBits(b, len));
      while count >= 8
        invariant buffer < Pow2(count) && Bytes(out) && buffer < 0x1_0000_0000
        invariant Bits() == before + LowBits(b, len)
      {
        TakeByte(buffer, count - 8);
        BitsOfBytesSnoc(out, buffer % 256);
        JoinThree(BitsOfBytes(out, 0, |out|), LowBits(buffer % 256, 8), LowBits(buffer / 256, count - 8));
        out := out + [buffer % 256];
        buffer := buffer / 256;
        count := count - 8;
      }
    }
  }

  /** The buffer stays within 32 bits. */
  lemma WithinWord(v: nat, n: nat)
    requires n <= 23 && v < Pow2(n)
    ensures v < 0x1_0000_0000
  {
    Pow2Monotone(n, 24);
    Pow2Add(8, 16);
    Pow2Add(8, 8);
    assert Pow2(8) == 256;
  }
}
