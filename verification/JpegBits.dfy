/** The JPEG encoder's bit writer: most significant bit first, with byte stuffing (section F.1.2.3 of ITU-T T.81). */
module JpegBits {
  import opened Sequences
  import opened Arithmetic
  import opened PrefixCodes
  import opened CanonicalCodes

  const OUT_BUF_SIZE: nat := 2048

  // ----- words of several fields

  lemma {:induction false} BitsAppend(v: nat, n: nat, b: nat, len: nat)
    requires b < Pow2(len)
    ensures Bits(v * Pow2(len) + b, n + len) == Bits(v, n) + Bits(b, len)
  {
    if len == 0 {
      assert Pow2(0) == 1 && b == 0;
      assert v * Pow2(len) + b == v;
      assert Bits(v, n) + [] == Bits(v, n);
    } else {
      BitsAppend(v, n, b / 2, len - 1);
      HalfOfSum(v, Pow2(len - 1), b);
      JoinThree(Bits(v, n), Bits(b / 2, len - 1), [b % 2 == 1]);
    }
  }

  lemma HalfOfSum(v: nat, unit: nat, b: nat)
    ensures (v * (2 * unit) + b) / 2 == v * unit + b / 2 && (v * (2 * unit) + b) % 2 == b % 2
  {
    assert v * (2 * unit) == 2 * (v * unit);
  }

  /** The bits of whole bytes. */
  function ByteBits(bytes: seq<nat>): (bits: Word)
    ensures |bits| == 8 * |bytes|
  {
    if bytes == [] then [] else ByteBits(bytes[..|bytes| - 1]) + Bits(bytes[|bytes| - 1], 8)
  }

  lemma ByteBitsSnoc(bytes: seq<nat>, c: nat)
    ensures ByteBits(bytes + [c]) == ByteBits(bytes) + Bits(c, 8)
  {
    assert (bytes + [c])[..|bytes|] == bytes;
  }

  // ----- stuffing

  /** A zero byte behind every 0xFF. */
  function Stuffed(bytes: seq<nat>): (r: seq<nat>)
  {
    if bytes == [] then []
    else
      var c := bytes[|bytes| - 1];
      Stuffed(bytes[..|bytes| - 1]) + if c == 0xFF then [0xFF, 0] else [c]
  }

  lemma StuffedSnoc(bytes: seq<nat>, c: nat)
    ensures Stuffed(bytes + [c]) == Stuffed(bytes) + if c == 0xFF then [0xFF, 0] else [c]
  {
    assert (bytes + [c])[..|bytes|] == bytes;
  }

  /** What a decoder makes of scan bytes: it drops the byte behind every 0xFF. */
  function Unstuffed(bytes: seq<nat>): (r: seq<nat>)
  {
    if bytes == [] then []
    else if bytes[0] == 0xFF && |bytes| > 1 then [0xFF] + Unstuffed(bytes[2..])
    else [bytes[0]] + Unstuffed(bytes[1..])
  }

  lemma {:induction false} StuffedAppend(a: seq<nat>, b: seq<nat>)
    ensures Stuffed(a + b) == Stuffed(a) + Stuffed(b)
  {
    hide Stuffed;
    NothingStuffed();
    if b == [] {
      assert a + b == a;
      assert Stuffed(a) + [] == Stuffed(a);
    } else {
      var init, c := b[..|b| - 1], b[|b| - 1];
      assert b == init + [c] && a + b == (a + init) + [c];
      StuffedAppend(a, init);
      StuffedSnoc(init, c);
      StuffedSnoc(a + init, c);
    }
  }

  lemma NothingStuffed()
    ensures Stuffed([]) == []
  {
  }

  lemma StuffedHead(bytes: seq<nat>)
    requires bytes != []
    ensures Stuffed(bytes) == (if bytes[0] == 0xFF then [0xFF, 0] else [bytes[0]]) + Stuffed(bytes[1..])
  {
    hide Stuffed;
    NothingStuffed();
    assert bytes == bytes[..1] + bytes[1..] && bytes[..1] == [] + [bytes[0]];
    StuffedSnoc([], bytes[0]);
    StuffedAppend(bytes[..1], bytes[1..]);
  }

  /** Stuffing is undone by the decoder. */
  lemma {:induction false} UnstuffedOfStuffed(bytes: seq<nat>)
    ensures Unstuffed(Stuffed(bytes)) == bytes
  {
    if bytes != [] {
      StuffedHead(bytes);
      UnstuffedOfStuffed(bytes[1..]);
      var s := Stuffed(bytes);
      if bytes[0] == 0xFF {
        assert s[2..] == Stuffed(bytes[1..]);
      } else {
        assert s[1..] == Stuffed(bytes[1..]);
      }
    }
  }

  /** In stuffed bytes no 0xFF is followed by anything but zero, so no marker can appear. */
  lemma {:induction false} NoMarkers(bytes: seq<nat>, i: nat)
    requires i < |Stuffed(bytes)| && Stuffed(bytes)[i] == 0xFF
    ensures i + 1 < |Stuffed(bytes)| && Stuffed(bytes)[i + 1] == 0
  {
    var front := Stuffed(bytes[..|bytes| - 1]);
    if i < |front| { NoMarkers(bytes[..|bytes| - 1], i); }
  }

  // ----- the writer

  /** n pending bits of value v stand at the top of the 24 low bits of the buffer. */
  ghost predicate Pending(buffer: nat, n: nat, v: nat) {
    n <= 24 && v < Pow2(n) && buffer < 0x1_0000_0000 && buffer % 0x100_0000 == v * Pow2(24 - n)
  }

  lemma Product3(a: nat, b: nat, c: nat)
    ensures a * (b * c) == (a * b) * c
  {
  }

  lemma Distribute(a: nat, b: nat, c: nat)
    ensures (a + b) * c == a * c + b * c
  {
  }

  lemma Grows(a: nat, b: nat, c: nat)
    requires a <= b
    ensures a * c <= b * c
  {
  }

  /** v with b below it stays below the room for both. */
  lemma PutRoom(v: nat, b: nat, unit: nat, top: nat)
    requires v < top && b < unit
    ensures v * unit + b < top * unit
  {
    Distribute(v, 1, unit);
    Grows(v + 1, top, unit);
  }

  lemma Below(x: nat, room: nat, unit: nat)
    requires x < room && unit >= 1
    ensures x * unit < room * unit
  {
    Distribute(x, 1, unit);
    Grows(x + 1, room, unit);
  }

  lemma Low24(buffer: nat, buffer': nat, low: nat, low': nat)
    requires buffer % 0x100_0000 == low <= low' < 0x100_0000 && buffer' == buffer + (low' - low)
    ensures buffer' % 0x100_0000 == low' && (buffer < 0x1_0000_0000 ==> buffer' < 0x1_0000_0000)
  {
    var hi := buffer / 0x100_0000;
    assert buffer' == 0x100_0000 * hi + low';
  }

  lemma PowersOf()
    ensures Pow2(8) == 256 && Pow2(16) == 65536 && Pow2(24) == 0x100_0000
  {
    assert Pow2(8) == 256;
    Pow2Add(8, 8);
    Pow2Add(16, 8);
  }

  lemma PutAbove(buffer: nat, n: nat, v: nat, b: nat, len: nat, buffer': nat)
    requires Pending(buffer, n, v) && b < Pow2(len) && n + len <= 24
    requires buffer' == buffer + b * Pow2(24 - n - len)
    ensures Pending(buffer', n + len, v * Pow2(len) + b)
    ensures Bits(v * Pow2(len) + b, n + len) == Bits(v, n) + Bits(b, len)
  {
    hide Pow2, Bits;
    BitsAppend(v, n, b, len);
    var unit, below := Pow2(len), Pow2(24 - n - len);
    Pow2Add(len, 24 - n - len);
    Pow2Add(n, len);
    Pow2Add(n + len, 24 - n - len);
    PowersOf();
    PutRoom(v, b, unit, Pow2(n));
    Product3(v, unit, below);
    Distribute(v * unit, b, below);
    Below(v * unit + b, Pow2(n + len), below);
    Low24(buffer, buffer', v * (unit * below), (v * unit + b) * below);
  }

  /** Taking the top byte. */
  lemma TakeTop(buffer: nat, n: nat, v: nat)
    requires Pending(buffer, n, v) && 8 <= n
    ensures buffer / 65536 % 256 == v / Pow2(n - 8)
    ensures Pending(buffer * 256 % 0x1_0000_0000, n - 8, v % Pow2(n - 8))
    ensures Bits(v, n) == Bits(v / Pow2(n - 8), 8) + Bits(v % Pow2(n - 8), n - 8)
  {
    hide Pow2, Bits;
    var unit, low := Pow2(n - 8), Pow2(24 - n);
    var q, r := DivParts(v, unit);
    Pow2Add(n - 8, 24 - n);
    Pow2Add(8, 24 - n);
    Pow2Add(8, n - 8);
    PowersOf();
    BitsAppend(q, 8, r, n - 8);
    Distribute(q * unit, r, low);
    Product3(q, unit, low);
    Below(r, unit, low);
    TopShare(q, unit, v);
    var hi := buffer / 0x100_0000;
    ByteOut(hi, q, r * low, buffer);
    BytesLeft(hi, q, r * low, buffer);
    Product3(r, 256, low);
    Commute(r, 256, low);
  }

  lemma Commute(r: nat, a: nat, low: nat)
    ensures (r * a) * low == (r * low) * a
  {
  }

  lemma TopShare(q: nat, unit: nat, v: nat)
    requires unit >= 1 && v < 256 * unit && q * unit <= v
    ensures q < 256
  {
    if q >= 256 { Grows(256, q, unit); }
  }

  lemma ByteOut(hi: nat, q: nat, rest: nat, buffer: nat)
    requires q < 256 && rest < 65536 && buffer == 0x100_0000 * hi + 65536 * q + rest
    ensures buffer / 65536 % 256 == q
  {
    assert buffer / 65536 == 256 * hi + q;
  }

  lemma BytesLeft(hi: nat, q: nat, rest: nat, buffer: nat)
    requires q < 256 && rest < 65536 && buffer == 0x100_0000 * hi + 65536 * q + rest
    ensures buffer * 256 % 0x1_0000_0000 % 0x100_0000 == rest * 256
  {
    var y := 0x100_0000 * q + 256 * rest;
    assert buffer * 256 == 0x1_0000_0000 * hi + y;
    DivUnique(buffer * 256, 0x1_0000_0000, hi, y);
    DivUnique(y, 0x100_0000, q, 256 * rest);
  }

  class ScanWriter {
    const outBuf: array<nat>
    var left: nat
    /** What the output buffer has been emptied into. */
    var stream: seq<nat>
    var bitBuffer: nat
    var bitsIn: nat
    /** The bytes put so far, without the stuffed zeros, and the pending bits as a number. */
    ghost var plain: seq<nat>
    ghost var pending: nat

    ghost predicate Buffered()
      reads this, outBuf
    {
      outBuf.Length == OUT_BUF_SIZE && 1 <= left <= OUT_BUF_SIZE
    }

    /** All bytes put out, in the buffer or emptied from it. */
    ghost function Written(): (r: seq<nat>)
      requires Buffered()
      reads this, outBuf
    {
      stream + outBuf[..OUT_BUF_SIZE - left]
    }

    ghost predicate Valid()
      reads this, outBuf
    {
      && Buffered() && bitsIn < 8 && Pending(bitBuffer, bitsIn, pending)
      && Written() == Stuffed(plain) && forall i :: 0 <= i < |plain| ==> plain[i] < 256
    }

    ghost function Put(): (bits: Word)
      reads this
    {
      ByteBits(plain) + Bits(pending, bitsIn)
    }

    constructor ()
      ensures Valid() && Put() == [] && fresh(outBuf)
    {
      outBuf := new nat[OUT_BUF_SIZE](_ => 0);
      left, stream, bitBuffer, bitsIn, plain, pending := OUT_BUF_SIZE, [], 0, 0, [], 0;
      new;
      assert Pow2(0) == 1;
      assert outBuf[..0] == [];
    }

    method FlushOutputBuffer()
      requires outBuf.Length == OUT_BUF_SIZE && left <= OUT_BUF_SIZE
      modifies this`left, this`stream
      ensures Buffered() && left == OUT_BUF_SIZE && Written() == old(stream) + outBuf[..OUT_BUF_SIZE - old(left)]
    {
      if left != OUT_BUF_SIZE { stream := stream + outBuf[..OUT_BUF_SIZE - left]; }
      left := OUT_BUF_SIZE;
      assert outBuf[..0] == [];
    }

    method PutByte(c: nat)
      requires Buffered()
      modifies this`left, this`stream, outBuf
      ensures Buffered() && Written() == old(Written()) + [c]
    {
      ghost var n, before := OUT_BUF_SIZE - left, outBuf[..OUT_BUF_SIZE - left];
      outBuf[OUT_BUF_SIZE - left] := c;
      left := left - 1;
      assert outBuf[..n + 1] == before + [c];
      assert stream + (before + [c]) == (stream + before) + [c];
      if left == 0 { FlushOutputBuffer(); }
    }

    /** A byte, with its stuffing. */
    method PutStuffed(c: nat)
      requires Buffered() && Written() == Stuffed(plain)
      modifies this`left, this`stream, this`plain, outBuf
      ensures Buffered() && Written() == Stuffed(plain) && plain == old(plain) + [c]
    {
      StuffedSnoc(plain, c);
      ghost var before := Written();
      PutByte(c);
      if c == 0xFF {
        PutByte(0);
        assert before + [c] + [0] == before + [0xFF, 0];
      }
      plain := plain + [c];
    }

    /** The state between the bytes of one call. */
    ghost predicate Emitting()
      reads this, outBuf
    {
      && Buffered() && bitsIn <= 24 && Pending(bitBuffer, bitsIn, pending)
      && Written() == Stuffed(plain) && forall i :: 0 <= i < |plain| ==> plain[i] < 256
    }

    /** The top byte of the bit buffer goes out. */
    method EmitByte()
      requires Emitting() && bitsIn >= 8
      modifies this, outBuf
      ensures Emitting() && Put() == old(Put()) && bitsIn == old(bitsIn) - 8
    {
      hide Pow2, Bits, ByteBits, Stuffed, Pending;
      ghost var before := Put();
      TakeTop(bitBuffer, bitsIn, pending);
      ghost var c, rest := pending / Pow2(bitsIn - 8), pending % Pow2(bitsIn - 8);
      ByteBitsSnoc(plain, c);
      JoinThree(ByteBits(plain), Bits(c, 8), Bits(rest, bitsIn - 8));
      PutStuffed(bitBuffer / 65536 % 256);
      bitBuffer := bitBuffer * 256 % 0x1_0000_0000;
      bitsIn := bitsIn - 8;
      pending := rest;
    }

    method PutBits(bits: nat, len: nat)
      requires Valid() && bits < Pow2(len) && len <= 16
      modifies this, outBuf
      ensures Valid() && Put() == old(Put()) + Bits(bits, len)
    {
      hide Pow2, Bits, ByteBits, Stuffed, Pending;
      ghost var before := Put();
      bitsIn := bitsIn + len;
      var unit := Power(24 - bitsIn);
      PutAbove(bitBuffer, bitsIn - len, pending, bits, len, bitBuffer + bits * unit);
      JoinThree(ByteBits(plain), Bits(pending, bitsIn - len), Bits(bits, len));
      bitBuffer := bitBuffer + bits * unit;
      pending := pending * Pow2(len) + bits;
      while bitsIn >= 8
        invariant Emitting() && Put() == before + Bits(bits, len)
        decreases bitsIn
      {
        EmitByte();
      }
    }

    /** The end of the scan: padding with ones, then everything is emptied into the stream. */
    method Terminate() returns (ghost pad: Word)
      requires Valid()
      modifies this, outBuf
      ensures Valid() && stream == Stuffed(plain) && |pad| < 8
      ensures ByteBits(plain) == old(Put()) + pad && AllOnes(pad)
    {
      hide Stuffed, ByteBits;
      ghost var before := Put();
      OnesBelow();
      PutBits(0x7F, 7);
      pad := Bits(0x7F, 7)[..7 - bitsIn];
      PadOf(ByteBits(plain), Bits(pending, bitsIn), before, Bits(0x7F, 7));
      FlushOutputBuffer();
      assert outBuf[..0] == [] && stream + [] == stream;
    }
  }

  lemma SevenOnes()
    ensures Pow2(7) == 128
  {
  }

  lemma OnesBelow()
    ensures 0x7F < Pow2(7) && AllOnes(Bits(0x7F, 7))
  {
    hide Bits;
    SevenOnes();
    OnesWord(7);
  }

  /** Whole bytes hold what was put and the first of the ones. */
  lemma PadOf(bytes: Word, left: Word, before: Word, ones: Word)
    requires bytes + left == before + ones && |left| <= |ones|
    ensures bytes == before + ones[..|ones| - |left|]
  {
    assert (bytes + left)[..|bytes|] == bytes;
    assert (before + ones)[..|bytes|] == before + ones[..|ones| - |left|];
  }
}
