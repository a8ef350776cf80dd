/** The Adler-32 checksum (sections 2.2 and 8.2 of RFC 1950), computed in blocks. */
module Adler32 {
  import opened Wrappers
  import opened Arithmetic
  import opened LzTokens

  const BASE: nat := 65521
  const BLOCK: nat := 5552
  const TWO_TO_32: nat := 0x1_0000_0000

  /** The two sums. */
  datatype Sums = Sums(s1: nat, s2: nat)

  /** As defined: both sums reduced after every byte. */
  function PerByte(s: Sums, data: seq<nat>): (r: Sums)
  {
    if data == [] then s
    else
      var t := PerByte(s, data[..|data| - 1]);
      var s1 := (t.s1 + data[|data| - 1]) % BASE;
      Sums(s1, (t.s2 + s1) % BASE)
  }

  /** The sums without any reduction. */
  function Plain(s: Sums, data: seq<nat>): (r: Sums)
  {
    if data == [] then s
    else
      var t := Plain(s, data[..|data| - 1]);
      Sums(t.s1 + data[|data| - 1], t.s2 + (t.s1 + data[|data| - 1]))
  }

  function Reduced(s: Sums): Sums {
    Sums(s.s1 % BASE, s.s2 % BASE)
  }

  lemma PlainSnoc(s: Sums, data: seq<nat>, c: nat)
    ensures Plain(s, data + [c]) == Next(Plain(s, data), c)
  {
    assert (data + [c])[..|data|] == data;
  }

  lemma {:induction false} PlainAppend(s: Sums, a: seq<nat>, b: seq<nat>)
    ensures Plain(s, a + b) == Plain(Plain(s, a), b)
  {
    if b == [] {
      assert a + b == a;
    } else {
      PlainAppend(s, a, b[..|b| - 1]);
      assert (a + b)[..|a + b| - 1] == a + b[..|b| - 1];
    }
  }

  lemma PerByteSnoc(s: Sums, data: seq<nat>, c: nat)
    ensures PerByte(s, data + [c]) == NextReduced(PerByte(s, data), c)
  {
    assert (data + [c])[..|data|] == data;
  }

  function Next(s: Sums, c: nat): Sums {
    Sums(s.s1 + c, s.s2 + (s.s1 + c))
  }

  function NextReduced(s: Sums, c: nat): Sums {
    var s1 := (s.s1 + c) % BASE;
    Sums(s1, (s.s2 + s1) % BASE)
  }

  lemma RemainderOfSum(a: nat, b: nat)
    ensures (a + b) % 65521 == (a % 65521 + b) % 65521 == (a + b % 65521) % 65521
  {
    assert a == 65521 * (a / 65521) + a % 65521;
    assert b == 65521 * (b / 65521) + b % 65521;
  }

  lemma RemainderOfFirst(a: nat, c: nat)
    ensures (a % 65521 + c) % 65521 == (a + c) % 65521
  {
    RemainderOfSum(a, c);
  }

  lemma RemainderOfSecond(b: nat, x: nat, y: nat)
    requires x % 65521 == y % 65521
    ensures (b % 65521 + x) % 65521 == (b + y) % 65521
  {
    RemainderOfSum(b, x);
    RemainderOfSum(b % 65521, x);
    RemainderOfSum(b, y);
  }

  /** What a step leaves after reduction depends on the reduced sums only. */
  lemma ReducedNext(s: Sums, c: nat)
    ensures Reduced(Next(s, c)) == NextReduced(s, c)
    ensures Reduced(Next(Reduced(s), c)) == NextReduced(s, c)
    ensures NextReduced(Reduced(s), c) == NextReduced(s, c)
  {
    NextReducedIs(s, c);
    NextReducedIs(Reduced(s), c);
    FirstAgrees(s, c);
    SecondAgrees(s.s2, s.s1 + c, s.s1 % BASE + c);
  }

  lemma FirstAgrees(s: Sums, c: nat)
    ensures (s.s1 % BASE + c) % BASE == (s.s1 + c) % BASE
  {
    RemainderOfFirst(s.s1, c);
  }

  lemma SecondAgrees(b: nat, x: nat, y: nat)
    requires x % BASE == y % BASE
    ensures (b % BASE + y) % BASE == (b + x) % BASE
  {
    RemainderOfSecond(b, y, x);
  }

  lemma NextReducedIs(s: Sums, c: nat)
    ensures NextReduced(s, c) == Sums((s.s1 + c) % BASE, (s.s2 + (s.s1 + c)) % BASE)
  {
    RemainderOfSum(s.s2, s.s1 + c);
  }

  lemma LastApart(data: seq<nat>) returns (most: seq<nat>, c: nat)
    requires data != []
    ensures data == most + [c] && |most| == |data| - 1
  {
    most, c := data[..|data| - 1], data[|data| - 1];
  }

  /** Reducing first makes no difference after reduction. */
  lemma {:induction false} ReducedPlain(s: Sums, data: seq<nat>)
    ensures Reduced(Plain(s, data)) == Reduced(Plain(Reduced(s), data))
    decreases |data|
  {
    hide Plain, Reduced, Next, NextReduced;
    if data == [] {
      Nothing(s);
      Nothing(Reduced(s));
      ReducedTwice(s);
    } else {
      var most, c := LastApart(data);
      ReducedPlain(s, most);
      PlainSnoc(s, most, c);
      PlainSnoc(Reduced(s), most, c);
      ReducedNext(Plain(s, most), c);
      ReducedNext(Plain(Reduced(s), most), c);
    }
  }

  lemma ReducedTwice(s: Sums)
    ensures Reduced(Reduced(s)) == Reduced(s)
  {
  }

  /** Reducing after every byte or once at the end is the same. */
  lemma {:induction false} PerByteIsReduced(s: Sums, data: seq<nat>)
    ensures data != [] ==> PerByte(s, data) == Reduced(Plain(s, data))
    ensures Reduced(PerByte(s, data)) == Reduced(Plain(s, data))
    decreases |data|
  {
    hide Plain, PerByte, Reduced, Next, NextReduced;
    if data == [] {
      Nothing(s);
    } else {
      var most, c := LastApart(data);
      PerByteIsReduced(s, most);
      PlainSnoc(s, most, c);
      PerByteSnoc(s, most, c);
      ReducedNext(Plain(s, most), c);
      ReducedNext(PerByte(s, most), c);
      ReducedTwice(Next(Plain(s, most), c));
    }
  }

  /** Sums of all prefixes but the empty one. */
  function PrefixSums(data: seq<nat>): (r: nat)
  {
    if data == [] then 0 else PrefixSums(data[..|data| - 1]) + Sum(data)
  }

  /** What the sums are: the bytes, and all values the first sum takes. */
  lemma {:induction false} PlainIsSums(s: Sums, data: seq<nat>)
    ensures Plain(s, data) == Sums(s.s1 + Sum(data), s.s2 + |data| * s.s1 + PrefixSums(data))
  {
    if data != [] {
      var n := |data| - 1;
      PlainIsSums(s, data[..n]);
      assert |data| * s.s1 == n * s.s1 + s.s1;
    }
  }

  /** Starting from 1, as a new checksum does. */
  lemma ChecksumIsSums(data: seq<nat>)
    requires data != []
    ensures PerByte(Sums(1, 0), data) == Sums((1 + Sum(data)) % BASE, (|data| + PrefixSums(data)) % BASE)
  {
    PerByteIsReduced(Sums(1, 0), data);
    PlainIsSums(Sums(1, 0), data);
  }

  // ----- no overflow

  lemma {:induction false} PlainBound(s: Sums, data: seq<Byte>)
    ensures Plain(s, data).s1 <= s.s1 + 255 * |data|
    ensures 2 * Plain(s, data).s2 <= 2 * s.s2 + 2 * (|data| * s.s1) + 255 * (|data| * (|data| + 1))
  {
    if data != [] {
      var n := |data| - 1;
      PlainBound(s, data[..n]);
      assert |data| * s.s1 == n * s.s1 + s.s1;
      assert |data| * (|data| + 1) == n * (n + 1) + 2 * |data|;
    }
  }

  lemma Product(a: nat, b: nat, x: nat, y: nat)
    requires a <= x && b <= y
    ensures a * b <= x * y
  {
    ProductMonotone(a, b, y);
    assert a * y == y * a;
    ProductMonotone(y, a, x);
    assert y * x == x * y;
  }

  /** Within a block that starts with reduced sums, or is shorter and starts with any 16-bit sums, nothing overflows. */
  lemma BlockFits(s: Sums, data: seq<Byte>)
    requires s.s1 < 65536 && s.s2 < 65536 && |data| <= BLOCK && (|data| == BLOCK ==> s.s1 < BASE && s.s2 < BASE)
    ensures Plain(s, data).s1 < TWO_TO_32 && Plain(s, data).s2 < TWO_TO_32
  {
    PlainBound(s, data);
    var n := |data|;
    if n == BLOCK {
      Product(n, s.s1, 5552, 65520);
    } else {
      Product(n, s.s1, 5551, 65535);
      Product(n, n + 1, 5551, 5552);
    }
  }

  // ----- the computation

  function Unpack(adler: nat): Sums {
    Sums(adler % 65536, adler / 65536)
  }

  function Pack(s: Sums): nat {
    s.s2 * 65536 + s.s1
  }

  /** The checksum of data that follow those of a given checksum. */
  function Checksum(adler: nat, data: seq<nat>): nat {
    Pack(PerByte(Unpack(adler), data))
  }

  /** A new checksum by numbers: one more than the sum of the bytes, and the sum of what that is after each byte, both modulo
      the largest prime below 65536. */
  lemma ChecksumByNumbers(data: seq<nat>)
    ensures Checksum(1, data) == (|data| + PrefixSums(data)) % 65521 * 65536 + (1 + Sum(data)) % 65521
  {
    hide PerByte;
    if data == [] { Nothing(Sums(1, 0)); } else { ChecksumIsSums(data); }
  }

  /** One block without reduction, eight bytes at a time as far as possible. */
  method AddBlock(s: Sums, data: seq<Byte>) returns (r: Sums)
    requires s.s1 < 65536 && s.s2 < 65536 && |data| <= BLOCK && (|data| == BLOCK ==> s.s1 < BASE && s.s2 < BASE)
    ensures r == Plain(s, data) && r.s1 < TWO_TO_32 && r.s2 < TWO_TO_32
  {
    hide Plain;
    var s1, s2, i := s.s1, s.s2, 0;
    Nothing(s);
    assert data[..0] == [];
    while i + 7 < |data|
      invariant 0 <= i <= |data| && Sums(s1, s2) == Plain(s, data[..i])
    {
      s1, s2 := AddByte(s1, s2, s, data, i);
      s1, s2 := AddByte(s1, s2, s, data, i + 1);
      s1, s2 := AddByte(s1, s2, s, data, i + 2);
      s1, s2 := AddByte(s1, s2, s, data, i + 3);
      s1, s2 := AddByte(s1, s2, s, data, i + 4);
      s1, s2 := AddByte(s1, s2, s, data, i + 5);
      s1, s2 := AddByte(s1, s2, s, data, i + 6);
      s1, s2 := AddByte(s1, s2, s, data, i + 7);
      i := i + 8;
    }
    while i < |data|
      invariant 0 <= i <= |data| && Sums(s1, s2) == Plain(s, data[..i])
    {
      s1, s2 := AddByte(s1, s2, s, data, i);
      i := i + 1;
    }
    assert data[..|data|] == data;
    BlockFits(s, data);
    r := Sums(s1, s2);
  }

  /** Adds one byte; both sums stay below 2^32. */
  method AddByte(s1: nat, s2: nat, ghost s: Sums, data: seq<Byte>, i: nat) returns (t1: nat, t2: nat)
    requires s.s1 < 65536 && s.s2 < 65536 && |data| <= BLOCK && (|data| == BLOCK ==> s.s1 < BASE && s.s2 < BASE)
    requires i < |data| && Sums(s1, s2) == Plain(s, data[..i])
    ensures Sums(t1, t2) == Plain(s, data[..i + 1]) && t1 < TWO_TO_32 && t2 < TWO_TO_32
  {
    hide Plain;
    PlainSnoc(s, data[..i], data[i]);
    assert data[..i + 1] == data[..i] + [data[i]];
    BlockFits(s, data[..i + 1]);
    t1 := s1 + data[i];
    t2 := s2 + t1;
  }

  /** The whole checksum. Without data the initial value is given, whatever came before. */
  method ComputeAdler32(adler: nat, data: Option<seq<Byte>>) returns (r: nat)
    requires adler < TWO_TO_32
    ensures data.None? ==> r == 1
    ensures data.Some? ==> r == Checksum(adler, data.value) < TWO_TO_32
  {
    hide Plain, PerByte;
    if data.None? { return 1; }
    var ptr := data.value;
    ghost var start := Unpack(adler);
    var s := Sums(adler % 65536, adler / 65536);
    var left, blockLen := |ptr|, |ptr| % BLOCK;
    ghost var done: nat := 0;
    Nothing(start);
    assert ptr[..0] == [];
    while left > 0
      invariant 0 <= left <= |ptr| && done == |ptr| - left
      invariant if blockLen == BLOCK then left % BLOCK == 0 && s.s1 < BASE && s.s2 < BASE else blockLen == |ptr| % BLOCK && left == |ptr|
      invariant s.s1 < 65536 && s.s2 < 65536
      invariant ptr == [] || blockLen != BLOCK ==> s == start
      invariant Reduced(s) == Reduced(Plain(start, ptr[..done]))
      decreases left, if blockLen == BLOCK then 0 else 1
    {
      var t := AddBlock(s, ptr[|ptr| - left..|ptr| - left + blockLen]);
      OneBlock(start, ptr, done, blockLen, s, t);
      s := Sums(t.s1 % BASE, t.s2 % BASE);
      left := left - blockLen;
      done := done + blockLen;
      blockLen := BLOCK;
    }
    assert ptr[..|ptr|] == ptr;
    Finished(start, ptr, s);
    r := s.s2 * 65536 + s.s1;
  }

  lemma Nothing(s: Sums)
    ensures Plain(s, []) == s && PerByte(s, []) == s
  {
  }

  lemma OneBlock(start: Sums, ptr: seq<nat>, done: nat, blockLen: nat, s: Sums, t: Sums)
    requires done + blockLen <= |ptr| && Reduced(s) == Reduced(Plain(start, ptr[..done]))
    requires t == Plain(s, ptr[done..done + blockLen])
    ensures Reduced(t) == Reduced(Plain(start, ptr[..done + blockLen]))
    ensures Reduced(Reduced(t)) == Reduced(t)
  {
    hide Plain;
    var block := ptr[done..done + blockLen];
    assert ptr[..done + blockLen] == ptr[..done] + block;
    PlainAppend(start, ptr[..done], block);
    ReducedPlain(s, block);
    ReducedPlain(Plain(start, ptr[..done]), block);
  }

  lemma Finished(start: Sums, ptr: seq<nat>, s: Sums)
    requires Reduced(s) == Reduced(Plain(start, ptr)) && (ptr == [] ==> s == start) && (ptr != [] ==> s.s1 < BASE && s.s2 < BASE)
    ensures s == PerByte(start, ptr)
  {
    hide Plain, PerByte, Reduced;
    if ptr == [] {
      Nothing(start);
    } else {
      PerByteIsReduced(start, ptr);
      AlreadyReduced(s);
    }
  }

  lemma AlreadyReduced(s: Sums)
    requires s.s1 < BASE && s.s2 < BASE
    ensures Reduced(s) == s
  {
  }

  // ----- in pieces

  lemma {:induction false} PerByteAppend(s: Sums, a: seq<nat>, b: seq<nat>)
    ensures PerByte(s, a + b) == PerByte(PerByte(s, a), b)
  {
    if b == [] {
      assert a + b == a;
    } else {
      PerByteAppend(s, a, b[..|b| - 1]);
      assert (a + b)[..|a + b| - 1] == a + b[..|b| - 1];
    }
  }

  lemma {:induction false} PerByteSmall(s: Sums, data: seq<nat>)
    requires s.s1 < 65536
    ensures PerByte(s, data).s1 < 65536
  {
    if data != [] { PerByteSmall(s, data[..|data| - 1]); }
  }

  /** A checksum has 32 bits. */
  lemma {:induction false} ChecksumFits(data: seq<nat>)
    ensures Checksum(1, data) < TWO_TO_32
  {
    PerByteSmall(Unpack(1), data);
    SecondSmall(Unpack(1), data);
  }

  lemma SecondSmall(s: Sums, data: seq<nat>)
    requires s.s2 < 65536
    ensures PerByte(s, data).s2 < 65536
  {
  }

  /** Checksumming in pieces is checksumming the whole. */
  lemma ChecksumInPieces(adler: nat, a: seq<nat>, b: seq<nat>)
    ensures Checksum(Checksum(adler, a), b) == Checksum(adler, a + b)
  {
    PerByteSmall(Unpack(adler), a);
    PerByteAppend(Unpack(adler), a, b);
    assert Unpack(Pack(PerByte(Unpack(adler), a))) == PerByte(Unpack(adler), a);
  }
}
