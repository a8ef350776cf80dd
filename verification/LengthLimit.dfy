/** Limiting the length of Huffman codes: over-long codes are shortened to the limit and the
    code space is balanced again by splitting shorter codes. */
module LengthLimit {
  import opened Arithmetic

  const MAX_HUFF_CODESIZE: nat := 32
  const TWO_TO_32: nat := 0x1_0000_0000

  // ----- number of codes and the code space they take

  predicate Counts(c: seq<int>) {
    |c| == MAX_HUFF_CODESIZE + 1 && forall i :: 1 <= i < |c| ==> c[i] >= 0
  }

  /** Number of codes of 1 to k bits. */
  function Total(c: seq<int>, k: nat): (r: int)
    requires k < |c|
  {
    if k == 0 then 0 else Total(c, k - 1) + c[k]
  }

  /** Space taken by the codes of 1 to k bits, in units of 2^-m. */
  function Space(c: seq<int>, k: nat, m: nat): (r: int)
    requires k < |c| && k <= m
  {
    if k == 0 then 0 else Space(c, k - 1, m) + c[k] * Pow2(m - k)
  }

  lemma {:induction false} TotalSame(c: seq<int>, d: seq<int>, k: nat)
    requires k < |c| && k < |d| && forall i :: 1 <= i <= k ==> c[i] == d[i]
    ensures Total(c, k) == Total(d, k)
  {
    if k > 0 { TotalSame(c, d, k - 1); }
  }

  lemma {:induction false} SpaceSame(c: seq<int>, d: seq<int>, k: nat, m: nat)
    requires k < |c| && k < |d| && k <= m && forall i :: 1 <= i <= k ==> c[i] == d[i]
    ensures Space(c, k, m) == Space(d, k, m)
  {
    if k > 0 { SpaceSame(c, d, k - 1, m); }
  }

  lemma {:induction false} TotalUpdate(c: seq<int>, k: nat, i: nat, v: int)
    requires 1 <= i <= k < |c|
    ensures Total(c[i := v], k) == Total(c, k) - c[i] + v
  {
    if i == k { TotalSame(c, c[i := v], k - 1); } else { TotalUpdate(c, k - 1, i, v); }
  }

  lemma {:induction false} SpaceUpdate(c: seq<int>, k: nat, m: nat, i: nat, v: int)
    requires 1 <= i <= k < |c| && k <= m
    ensures Space(c[i := v], k, m) == Space(c, k, m) + (v - c[i]) * Pow2(m - i)
  {
    if i == k {
      SpaceSame(c, c[i := v], k - 1, m);
      assert v * Pow2(m - i) == c[i] * Pow2(m - i) + (v - c[i]) * Pow2(m - i);
    } else {
      SpaceUpdate(c, k - 1, m, i, v);
    }
  }

  // ----- folding the over-long codes into the limit

  function Folded(c: seq<int>, max: nat): (r: seq<int>)
    requires Counts(c) && 1 <= max <= MAX_HUFF_CODESIZE
    ensures |r| == |c|
  {
    c[max := c[max] + Total(c, MAX_HUFF_CODESIZE) - Total(c, max)]
  }

  lemma {:induction false} TotalGrows(c: seq<int>, j: nat, k: nat)
    requires Counts(c) && j <= k < |c|
    ensures 0 <= Total(c, j) <= Total(c, k)
  {
    if k > 0 {
      TotalGrows(c, if j < k then j else k - 1, k - 1);
    }
  }

  lemma {:induction false} SpaceNonNegative(c: seq<int>, k: nat, m: nat)
    requires Counts(c) && k < |c| && k <= m
    ensures 0 <= Space(c, k, m)
  {
    if k > 0 {
      SpaceNonNegative(c, k - 1, m);
      assert c[k] * Pow2(m - k) >= 0;
    }
  }

  lemma {:induction false} SpaceScales(c: seq<int>, k: nat, m: nat, up: nat)
    requires k < |c| && k <= m
    ensures Space(c, k, m + up) == Space(c, k, m) * Pow2(up)
  {
    if k > 0 {
      SpaceScales(c, k - 1, m, up);
      Pow2Add(m - k, up);
      ScaleTerm(Space(c, k - 1, m), c[k], Pow2(m - k), Pow2(up));
    }
  }

  lemma ScaleTerm(a: int, v: int, unit: nat, scale: nat)
    ensures (a + v * unit) * scale == a * scale + v * (unit * scale)
  {
    assert (v * unit) * scale == v * (unit * scale);
  }

  /** Codes of max bits or more take some space, but at most 2^-max each. */
  lemma {:induction false} TailSpace(c: seq<int>, max: nat, k: nat)
    requires Counts(c) && 1 <= max <= k <= MAX_HUFF_CODESIZE
    ensures Space(c, k, 32) - Space(c, max - 1, 32) <= (Total(c, k) - Total(c, max - 1)) * Pow2(32 - max)
    ensures Total(c, k) - Total(c, max - 1) <= Space(c, k, 32) - Space(c, max - 1, 32)
  {
    var count := Total(c, k) - Total(c, max - 1);
    Pow2Monotone(32 - k, 32 - max);
    TailTerm(c[k], Pow2(32 - k), Pow2(32 - max));
    if k > max {
      TailSpace(c, max, k - 1);
      assert count * Pow2(32 - max) == (count - c[k]) * Pow2(32 - max) + c[k] * Pow2(32 - max);
    }
  }

  lemma TailTerm(v: int, small: nat, large: nat)
    requires v >= 0 && 1 <= small <= large
    ensures v <= v * small <= v * large
  {
  }

  /** A complete code, folded: too much space is used by less than the codes at the limit. */
  ghost predicate Foldable(c: seq<int>, max: nat) {
    Counts(c) && 1 <= max <= 16 && Total(c, 32) <= Pow2(max) && Space(c, 32, 32) == TWO_TO_32
  }

  lemma {:induction false} FoldedSpace(c: seq<int>, max: nat)
    requires Foldable(c, max)
    ensures Counts(Folded(c, max)) && Total(Folded(c, max), max) == Total(c, 32)
    ensures Overfull(Folded(c, max), max) && Pow2(max) <= Space(Folded(c, max), max, max)
  {
    var d := Folded(c, max);
    TotalGrows(c, max, 32);
    TotalSame(c, d, max - 1);
    SpaceSame(c, d, max - 1, max);
    TailSpace(c, max, 32);
    SpaceScales(c, max - 1, max, 32 - max);
    Pow2Add(max, 32 - max);
    Pow32();
    FoldArithmetic(Space(c, max - 1, max), d[max], Space(c, 32, 32) - Space(c, max - 1, 32), Pow2(max), Pow2(32 - max));
    assert Pow2(0) == 1;
  }

  lemma Pow32()
    ensures Pow2(32) == TWO_TO_32
    ensures Pow2(16) == 65536
  {
    assert Pow2(4) == 16;
    Pow2Add(4, 4);
    Pow2Add(8, 8);
    Pow2Add(16, 16);
  }

  lemma FoldArithmetic(shorter: int, atLimit: int, tail: int, full: nat, unit: nat)
    requires unit > 0 && shorter * unit + tail == full * unit
    requires 0 <= atLimit <= tail <= atLimit * unit
    ensures full <= shorter + atLimit
    ensures shorter + atLimit == full || shorter < full
  {
    Cancel(full, shorter + atLimit, unit);
    if tail > 0 {
      CancelStrict(shorter, full, unit);
    } else {
      Cancel(shorter, full, unit);
    }
  }

  lemma Cancel(a: int, b: int, unit: nat)
    requires unit > 0 && a * unit <= b * unit
    ensures a <= b
  {
    assert b < a ==> (a - b) * unit > 0;
  }

  lemma CancelStrict(a: int, b: int, unit: nat)
    requires unit > 0 && a * unit < b * unit
    ensures a < b
  {
    assert b <= a ==> (a - b) * unit >= 0;
  }

  /** Space is overfull, and by less than the number of codes at the limit. */
  ghost predicate Overfull(c: seq<int>, max: nat) {
    && Counts(c) && 1 <= max <= 16
    && Pow2(max) <= Space(c, max, max)
    && (Space(c, max, max) == Pow2(max) || Space(c, max - 1, max) < Pow2(max))
  }

  // ----- one repair: drop a code at the limit, split the deepest shorter code

  /** The largest length in 1..k that is in use, or 0. */
  function Deepest(c: seq<int>, k: nat): (i: nat)
    requires k < |c|
    ensures i <= k
    ensures i > 0 ==> c[i] != 0
    ensures forall j :: i < j <= k ==> c[j] == 0
  {
    if k == 0 || c[k] != 0 then k else Deepest(c, k - 1)
  }

  function SplitOne(c: seq<int>, max: nat): (r: seq<int>)
    requires 1 <= max < |c|
    ensures |r| == |c|
  {
    var d := c[max := c[max] - 1];
    var i := Deepest(d, max - 1);
    if i == 0 then d
    else
      var e := d[i := d[i] - 1];
      e[i + 1 := e[i + 1] + 2]
  }

  function Repaired(c: seq<int>, max: nat, excess: nat): (r: seq<int>)
    requires 1 <= max < |c|
    ensures |r| == |c|
    decreases excess
  {
    if excess == 0 then c else Repaired(SplitOne(c, max), max, excess - 1)
  }

  lemma {:induction false} OnlyLimitUsed(c: seq<int>, k: nat, m: nat)
    requires k < |c| && k <= m && forall j :: 1 <= j <= k ==> c[j] == 0
    ensures Total(c, k) == 0 && Space(c, k, m) == 0
  {
    if k > 0 { OnlyLimitUsed(c, k - 1, m); }
  }

  lemma {:induction false} SomethingToSplit(c: seq<int>, max: nat)
    requires Overfull(c, max) && Space(c, max, max) > Pow2(max) && Total(c, max) <= Pow2(max)
    ensures c[max] > 0
    ensures 0 < Deepest(c[max := c[max] - 1], max - 1)
  {
    var d := c[max := c[max] - 1];
    assert Space(c, max, max) == Space(c, max - 1, max) + c[max] * Pow2(0);
    SpaceSame(c, d, max - 1, max);
    TotalSame(c, d, max - 1);
    if Deepest(d, max - 1) == 0 {
      OnlyLimitUsed(d, max - 1, max);
    }
  }

  lemma {:induction false} AddOnce(c: seq<int>, k: nat, m: nat, i: nat, delta: int)
    requires 1 <= i <= k < |c| && k <= m
    ensures Total(c[i := c[i] + delta], k) == Total(c, k) + delta
    ensures Space(c[i := c[i] + delta], k, m) == Space(c, k, m) + delta * Pow2(m - i)
  {
    TotalUpdate(c, k, i, c[i] + delta);
    SpaceUpdate(c, k, m, i, c[i] + delta);
  }

  lemma {:induction false} SplitSums(c: seq<int>, d: seq<int>, e: seq<int>, f: seq<int>, max: nat, i: nat)
    requires 1 <= i < max < |c|
    requires d == c[max := c[max] - 1] && e == d[i := d[i] - 1] && f == e[i + 1 := e[i + 1] + 2]
    ensures Total(f, max) == Total(c, max)
    ensures Space(f, max, max) == Space(c, max, max) - 1
  {
    hide Space, Total;
    assert Pow2(max - max) == 1;
    assert Pow2(max - i) == 2 * Pow2(max - (i + 1));
    AddOnce(c, max, max, max, -1);
    AddOnce(d, max, max, i, -1);
    AddOnce(e, max, max, i + 1, 2);
  }

  /** One repair keeps the number of codes and frees exactly one unit of space. */
  lemma {:induction false} SplitOneKeeps(c: seq<int>, max: nat)
    requires Overfull(c, max) && Space(c, max, max) > Pow2(max) && Total(c, max) <= Pow2(max)
    ensures Overfull(SplitOne(c, max), max) && Counts(SplitOne(c, max))
    ensures Total(SplitOne(c, max), max) == Total(c, max)
    ensures Space(SplitOne(c, max), max, max) == Space(c, max, max) - 1
    ensures forall j :: max < j < |c| ==> SplitOne(c, max)[j] == c[j]
  {
    hide Space, Total;
    SomethingToSplit(c, max);
    var d := c[max := c[max] - 1];
    var i := Deepest(d, max - 1);
    hide Deepest;
    var e := d[i := d[i] - 1];
    var f := e[i + 1 := e[i + 1] + 2];
    SplitSums(c, d, e, f, max, i);
    SplitShorter(c, d, e, f, max, i);
  }

  lemma {:induction false} SplitShorter(c: seq<int>, d: seq<int>, e: seq<int>, f: seq<int>, max: nat, i: nat)
    requires 1 <= i < max < |c| && max <= 16
    requires d == c[max := c[max] - 1] && e == d[i := d[i] - 1] && f == e[i + 1 := e[i + 1] + 2]
    ensures Space(f, max - 1, max) <= Space(c, max - 1, max)
  {
    SpaceSame(c, d, max - 1, max);
    SpaceUpdate(d, max - 1, max, i, d[i] - 1);
    if i + 1 < max {
      SpaceUpdate(e, max - 1, max, i + 1, e[i + 1] + 2);
      assert max - i == (max - (i + 1)) + 1;
    } else {
      SpaceSame(e, f, max - 1, max);
    }
  }

  /** The repairs end with the code space used up exactly and no code lost. */
  lemma {:induction false} RepairBalances(c: seq<int>, max: nat, excess: nat)
    requires Overfull(c, max) && Space(c, max, max) == Pow2(max) + excess && Total(c, max) <= Pow2(max)
    ensures Counts(Repaired(c, max, excess))
    ensures Total(Repaired(c, max, excess), max) == Total(c, max)
    ensures Space(Repaired(c, max, excess), max, max) == Pow2(max)
    ensures forall j :: max < j < |c| ==> Repaired(c, max, excess)[j] == c[j]
    decreases excess
  {
    if excess > 0 {
      SplitOneKeeps(c, max);
      RepairBalances(SplitOne(c, max), max, excess - 1);
    }
  }

  // ----- the computation in place

  /** n codes of up to 16 bits never overflow the 32-bit sum of their space. */
  lemma {:induction false} SpaceFits(c: seq<int>, k: nat, m: nat)
    requires Counts(c) && k < |c| && k <= m && m > 0
    ensures 0 <= Space(c, k, m) <= Total(c, k) * Pow2(m - 1)
  {
    SpaceNonNegative(c, k, m);
    if k > 0 {
      SpaceFits(c, k - 1, m);
      Pow2Monotone(m - k, m - 1);
      TailTerm(c[k], Pow2(m - k), Pow2(m - 1));
      ScaleTerm(Total(c, k - 1), c[k], 1, Pow2(m - 1));
    }
  }

  lemma {:induction false} SpaceFits32(c: seq<int>, max: nat)
    requires Counts(c) && 1 <= max <= 16 && Total(c, max) <= Pow2(max)
    ensures Space(c, max, max) < TWO_TO_32
  {
    SpaceFits(c, max, max);
    Pow2Add(max, max - 1);
    Pow2Monotone(max + (max - 1), 31);
    Pow2Monotone(31, 32);
    Pow32();
    TotalTimes(Total(c, max), Pow2(max), Pow2(max - 1));
  }

  lemma TotalTimes(a: int, b: int, unit: nat)
    requires a <= b
    ensures a * unit <= b * unit
  {
    assert (b - a) * unit >= 0;
  }

  lemma {:induction false} SpaceRises(c: seq<int>, j: nat, k: nat, m: nat)
    requires Counts(c) && j <= k < |c| && k <= m
    ensures 0 <= Space(c, j, m) <= Space(c, k, m)
  {
    SpaceNonNegative(c, j, m);
    if j < k {
      SpaceRises(c, j, k - 1, m);
      assert c[k] * Pow2(m - k) >= 0;
    }
  }

  method FoldLongCodes(c: array<int>, max: nat)
    requires Counts(c[..]) && 1 <= max <= MAX_HUFF_CODESIZE
    modifies c
    ensures c[..] == Folded(old(c[..]), max)
  {
    ghost var before := c[..];
    for i := max + 1 to MAX_HUFF_CODESIZE + 1
      invariant c[..] == before[max := before[max] + Total(before, i - 1) - Total(before, max)]
    {
      c[max] := c[max] + c[i];
    }
  }

  method SpaceUsed(c: array<int>, max: nat) returns (total: nat)
    requires Counts(c[..]) && 1 <= max <= 16 && Total(c[..], max) <= Pow2(max)
    ensures total == Space(c[..], max, max)
  {
    SpaceFits32(c[..], max);
    total := 0;
    var i := max;
    while i > 0
      invariant 0 <= i <= max
      invariant total == Space(c[..], max, max) - Space(c[..], i, max)
    {
      SpaceRises(c[..], i - 1, max, max);
      SpaceRises(c[..], i, max, max);
      assert Space(c[..], i, max) == Space(c[..], i - 1, max) + c[..][i] * Pow2(max - i);
      SpaceNonNegative(c[..], i - 1, max);
      total := Add32(total, Shift32(c[i], max - i));
      i := i - 1;
    }
  }

  /** Unsigned 32-bit addition and left shift. */
  function Add32(a: nat, b: nat): (r: nat)
    ensures a + b < TWO_TO_32 ==> r == a + b
  {
    (a + b) % TWO_TO_32
  }

  function Shift32(v: int, k: nat): (r: nat)
    requires v >= 0
    ensures 0 <= v * Pow2(k) < TWO_TO_32 ==> r == v * Pow2(k)
  {
    assert v * Pow2(k) >= 0;
    (v * Pow2(k)) % TWO_TO_32
  }

  method DropAndSplit(c: array<int>, max: nat)
    requires 1 <= max < c.Length
    modifies c
    ensures c[..] == SplitOne(old(c[..]), max)
  {
    c[max] := c[max] - 1;
    ghost var d := c[..];
    var i := max - 1;
    while i > 0
      invariant 0 <= i <= max - 1
      invariant c[..] == d && Deepest(d, max - 1) == Deepest(d, i)
    {
      if c[i] != 0 {
        c[i] := c[i] - 1;
        c[i + 1] := c[i + 1] + 2;
        break;
      }
      i := i - 1;
    }
  }

  method RepairAll(c: array<int>, max: nat, used: nat)
    requires 1 <= max <= 16 && c.Length == MAX_HUFF_CODESIZE + 1
    requires Overfull(c[..], max) && Total(c[..], max) <= Pow2(max) && used == Space(c[..], max, max) >= Pow2(max)
    modifies c
    ensures c[..] == Repaired(old(c[..]), max, used - Pow2(max))
  {
    hide Space, Total, SplitOne, Overfull;
    var total := used;
    ghost var s := c[..];
    while total != Pow2(max)
      invariant c[..] == s && Overfull(s, max) && Total(s, max) <= Pow2(max)
      invariant total == Space(s, max, max) >= Pow2(max)
      invariant Repaired(old(c[..]), max, used - Pow2(max)) == Repaired(s, max, total - Pow2(max))
      decreases total
    {
      SplitOneKeeps(s, max);
      DropAndSplit(c, max);
      s := SplitOne(s, max);
      total := total - 1;
    }
  }

  /** Counts of at most `codeListLen` codes are changed so that none is longer than `max` bits. */
  method EnforceMaxCodeSize(c: array<int>, codeListLen: nat, max: nat)
    requires 1 <= max <= 16 && Counts(c[..]) && Total(c[..], 32) == codeListLen <= Pow2(max)
    requires codeListLen > 1 ==> Space(c[..], 32, 32) == TWO_TO_32
    modifies c
    ensures Counts(c[..])
    ensures codeListLen <= 1 ==> c[..] == old(c[..])
    ensures codeListLen > 1 ==> Total(c[..], max) == codeListLen && Space(c[..], max, max) == Pow2(max)
    ensures codeListLen > 1 ==>
      var folded := Folded(old(c[..]), max);
      Space(folded, max, max) >= Pow2(max) &&
      c[..] == Repaired(folded, max, Space(folded, max, max) - Pow2(max))
  {
    if codeListLen <= 1 {
      return;
    }
    FoldedSpace(c[..], max);
    hide Space, Total, Folded, Overfull;
    FoldLongCodes(c, max);
    var total := SpaceUsed(c, max);
    RepairBalances(c[..], max, total - Pow2(max));
    RepairAll(c, max, total);
  }
}
