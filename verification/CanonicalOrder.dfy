/** How codes follow from their lengths (section 3.2.2 of RFC 1951, annex C of ITU-T T.81), and the order of their bits. */
module CanonicalOrder {
  import opened Arithmetic
  import opened PrefixCodes
  import opened CanonicalCodes
  import opened InflateTable
  import opened BitBuffers
  import opened CodeLengths

  lemma {:induction false} NoneShorter(sizes: seq<nat>, len: nat)
    requires forall k :: 0 <= k < |sizes| ==> sizes[k] == 0 || sizes[k] >= len
    ensures First(sizes, len) == 0
  {
    if len > 1 {
      NoneShorter(sizes, len - 1);
      CountNone(sizes, len - 1);
    }
  }

  /** The first symbol of the shortest length has zeros only. */
  lemma FirstCode(sizes: seq<nat>, i: nat)
    requires Used(sizes, i)
    requires forall k :: 0 <= k < |sizes| && sizes[k] > 0 ==> sizes[i] <= sizes[k] && (k < i ==> sizes[k] != sizes[i])
    ensures Code(sizes, i) == 0
  {
    NoneShorter(sizes, sizes[i]);
    CountNone(sizes[..i], sizes[i]);
  }

  /** Symbols of one length have consecutive codes. */
  lemma NextCode(sizes: seq<nat>, i: nat, j: nat)
    requires Used(sizes, i) && Used(sizes, j) && i < j && sizes[i] == sizes[j]
    requires forall k :: i < k < j ==> sizes[k] != sizes[i]
    ensures Code(sizes, j) == Code(sizes, i) + 1
  {
    hide First;
    assert sizes[..j] == sizes[..i] + ([sizes[i]] + sizes[i + 1..j]);
    CountAppend(sizes[..i], [sizes[i]] + sizes[i + 1..j], sizes[i]);
    CountAppend([sizes[i]], sizes[i + 1..j], sizes[i]);
    CountNone(sizes[i + 1..j], sizes[i]);
    assert CountOf([sizes[i]], sizes[i]) == 1;
  }

  /** From the last code of a length, the next length's first is got by adding 1 and a zero for each bit more. */
  lemma NextLengthCode(sizes: seq<nat>, i: nat, j: nat)
    requires Used(sizes, i) && Used(sizes, j) && sizes[i] < sizes[j]
    requires forall k :: i < k < |sizes| ==> sizes[k] != sizes[i]
    requires forall k :: 0 <= k < j ==> sizes[k] != sizes[j]
    requires forall k :: 0 <= k < |sizes| ==> !(sizes[i] < sizes[k] < sizes[j])
    ensures Code(sizes, j) == (Code(sizes, i) + 1) * Pow2(sizes[j] - sizes[i])
  {
    hide First, Pow2;
    var l, m := sizes[i], sizes[j] - 1;
    assert sizes == sizes[..i] + ([sizes[i]] + sizes[i + 1..]);
    CountAppend(sizes[..i], [sizes[i]] + sizes[i + 1..], l);
    CountAppend([sizes[i]], sizes[i + 1..], l);
    CountNone(sizes[i + 1..], l);
    assert CountOf([sizes[i]], l) == 1;
    CountNone(sizes[..j], sizes[j]);
    forall n | l < n <= m ensures CountOf(sizes, n) == 0 { CountNone(sizes, n); }
    PastDoubles(sizes, l, m - l);
    FirstIsTwicePast(sizes, sizes[j]);
    assert Pow2(sizes[j] - l) == 2 * Pow2(m - l) by { DoubleUp(m - l, sizes[j] - l); }
    Twice(Past(sizes, l), Pow2(m - l));
  }

  lemma DoubleUp(n: nat, m: nat)
    requires m == n + 1
    ensures Pow2(m) == 2 * Pow2(n)
  {
  }

  lemma Twice(a: nat, b: nat)
    ensures 2 * (a * b) == a * (2 * b)
  {
  }

  /** Code words are put from their highest bit on. */
  lemma {:induction false} BitOfCode(v: nat, n: nat, i: nat)
    requires i < n
    ensures Bits(v, n)[i] == (v / Pow2(n - 1 - i) % 2 == 1)
  {
    if i < n - 1 {
      BitOfCode(v / 2, n - 1, i);
      DivDiv(v, Pow2(n - 2 - i));
    }
  }
}
