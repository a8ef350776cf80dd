/** Least-significant-digit radix sort of symbol frequencies, with skipped passes. */
module RadixSort {
  import opened Arithmetic
  import opened SymbolCounts

  // ----- digits

  function Pow256(p: nat): (r: nat)
    ensures r > 0
  {
    if p == 0 then 1 else 256 * Pow256(p - 1)
  }

  /** Digit p of a key, base 256. */
  function Digit(key: nat, p: nat): (r: nat)
    ensures r < 256
  {
    key / Pow256(p) % 256
  }

  function Low(key: nat, p: nat): (r: nat)
  {
    key % Pow256(p)
  }

  lemma Recombine(key: nat, m: nat, q: nat, r: nat, q': nat, d: nat)
    requires key == m * q + r && r < m && q == 256 * q' + d && d < 256
    ensures key == (256 * m) * q' + (d * m + r) && 0 <= d * m + r < 256 * m
  {
    assert m * q == m * (256 * q') + m * d;
    assert (255 - d) * m >= 0;
  }

  lemma DigitSplit(key: nat, m: nat)
    requires m > 0
    ensures key % (256 * m) == (key / m % 256) * m + key % m
    ensures key % m < m
  {
    var q, r := DivParts(key, m);
    var q', d := DivParts(q, 256);
    Recombine(key, m, q, r, q', d);
    DivUnique(key, 256 * m, q', d * m + r);
  }

  lemma {:induction false} LowStep(key: nat, p: nat)
    ensures Low(key, p + 1) == Digit(key, p) * Pow256(p) + Low(key, p)
    ensures Low(key, p) < Pow256(p)
  {
    DigitSplit(key, Pow256(p));
  }

  lemma DigitOrder(dx: nat, dy: nat, m: nat, lx: nat, ly: nat)
    requires dx < dy && lx < m
    ensures dx * m + lx <= dy * m + ly
  {
    ProductMonotone(m, dx + 1, dy);
  }

  // ----- what a sorted result is

  ghost predicate SortedByKey(s: seq<SymFreq>) {
    forall i, j :: 0 <= i < j < |s| ==> s[i].key <= s[j].key
  }

  /** The records with a given key, in order. */
  function WithKey(s: seq<SymFreq>, key: nat): (r: seq<SymFreq>)
  {
    if s == [] then []
    else WithKey(s[..|s| - 1], key) + if s[|s| - 1].key == key then [s[|s| - 1]] else []
  }

  ghost predicate SameOrderPerKey(s: seq<SymFreq>, t: seq<SymFreq>) {
    forall key :: WithKey(s, key) == WithKey(t, key)
  }

  /** `t` is `s` sorted by key, with records of equal key in their original order. */
  ghost predicate StablySorted(s: seq<SymFreq>, t: seq<SymFreq>) {
    SortedByKey(t) && SameOrderPerKey(s, t)
  }

  lemma {:induction false} WithKeyCount(s: seq<SymFreq>, x: SymFreq)
    ensures multiset(s)[x] == multiset(WithKey(s, x.key))[x]
  {
    if s != [] {
      var init, last := s[..|s| - 1], s[|s| - 1];
      WithKeyCount(init, x);
      assert s == init + [last];
      assert multiset(init + [last]) == multiset(init) + multiset{last};
      if last.key == x.key {
        assert multiset(WithKey(init, x.key) + [last]) == multiset(WithKey(init, x.key)) + multiset{last};
      }
    }
  }

  /** A stable sort is a permutation. */
  lemma {:induction false} SameOrderIsPermutation(s: seq<SymFreq>, t: seq<SymFreq>)
    requires SameOrderPerKey(s, t)
    ensures multiset(s) == multiset(t) && |s| == |t|
  {
    forall x ensures multiset(s)[x] == multiset(t)[x] {
      WithKeyCount(s, x);
      WithKeyCount(t, x);
    }
    assert multiset(s) == multiset(t);
    assert |multiset(s)| == |s| && |multiset(t)| == |t|;
  }

  // ----- one pass

  /** The records whose digit p is d, in order. */
  function Bucket(s: seq<SymFreq>, p: nat, d: nat): (r: seq<SymFreq>)
    ensures |r| <= |s|
  {
    if s == [] then []
    else Bucket(s[..|s| - 1], p, d) + if Digit(s[|s| - 1].key, p) == d then [s[|s| - 1]] else []
  }

  /** Buckets 0 to d - 1, one after the other. */
  function Buckets(s: seq<SymFreq>, p: nat, d: nat): (r: seq<SymFreq>)
  {
    if d == 0 then [] else Buckets(s, p, d - 1) + Bucket(s, p, d - 1)
  }

  function Pass(s: seq<SymFreq>, p: nat): (r: seq<SymFreq>)
  {
    Buckets(s, p, 256)
  }

  lemma {:induction false} BucketSnoc(s: seq<SymFreq>, x: SymFreq, p: nat, d: nat)
    ensures Bucket(s + [x], p, d) == Bucket(s, p, d) + if Digit(x.key, p) == d then [x] else []
  {
    hide Digit;
    assert (s + [x])[..|s|] == s;
  }

  lemma {:induction false} BucketsSnocLength(s: seq<SymFreq>, x: SymFreq, p: nat, d: nat)
    ensures |Buckets(s + [x], p, d)| == |Buckets(s, p, d)| + if Digit(x.key, p) < d then 1 else 0
  {
    hide Digit;
    if d > 0 {
      BucketsSnocLength(s, x, p, d - 1);
      BucketSnoc(s, x, p, d - 1);
    }
  }

  lemma {:induction false} BucketsEmpty(p: nat, d: nat)
    ensures Buckets([], p, d) == []
  {
    if d > 0 { BucketsEmpty(p, d - 1); }
  }

  lemma {:induction false} PassLength(s: seq<SymFreq>, p: nat)
    ensures |Pass(s, p)| == |s|
  {
    hide Digit;
    if s == [] {
      BucketsEmpty(p, 256);
    } else {
      PassLength(s[..|s| - 1], p);
      BucketsSnocLength(s[..|s| - 1], s[|s| - 1], p, 256);
      assert s == s[..|s| - 1] + [s[|s| - 1]];
    }
  }

  lemma {:induction false} BucketsGrow(s: seq<SymFreq>, p: nat, d: nat, e: nat)
    requires d <= e
    ensures |Buckets(s, p, d)| <= |Buckets(s, p, e)|
  {
    hide Digit;
    if d < e { BucketsGrow(s, p, d, e - 1); }
  }

  // ----- a pass keeps the order among equal keys

  lemma {:induction false} WithKeyAppend(a: seq<SymFreq>, b: seq<SymFreq>, key: nat)
    ensures WithKey(a + b, key) == WithKey(a, key) + WithKey(b, key)
  {
    if b == [] {
      assert a + b == a;
    } else {
      assert (a + b)[..|a + b| - 1] == a + b[..|b| - 1];
      WithKeyAppend(a, b[..|b| - 1], key);
    }
  }

  lemma WithKeySingle(x: SymFreq, key: nat)
    ensures WithKey([x], key) == if x.key == key then [x] else []
  {
    assert [x][..0] == [];
  }

  lemma {:induction false} WithKeyOfBucket(s: seq<SymFreq>, p: nat, d: nat, key: nat)
    ensures WithKey(Bucket(s, p, d), key) == if Digit(key, p) == d then WithKey(s, key) else []
  {
    hide Digit;
    if s != [] {
      var init, last := s[..|s| - 1], s[|s| - 1];
      WithKeyOfBucket(init, p, d, key);
      WithKeySingle(last, key);
      WithKeyAppend(init, [last], key);
      assert s == init + [last];
      var before := WithKey(Bucket(init, p, d), key);
      assert before + [] == before;
      if Digit(last.key, p) == d {
        WithKeyAppend(Bucket(init, p, d), [last], key);
      } else {
        assert Bucket(s, p, d) == Bucket(init, p, d);
      }
    }
  }

  lemma JoinParts(a: seq<SymFreq>, b: seq<SymFreq>, whole: seq<SymFreq>, below: bool, here: bool)
    requires !(below && here)
    requires a == (if below then whole else []) && b == (if here then whole else [])
    ensures a + b == if below || here then whole else []
  {
  }

  lemma BucketsUnfold(s: seq<SymFreq>, p: nat, d: nat, key: nat)
    ensures d == 0 ==> WithKey(Buckets(s, p, d), key) == []
    ensures d > 0 ==> Buckets(s, p, d) == Buckets(s, p, d - 1) + Bucket(s, p, d - 1)
  {
    hide Digit, Bucket;
  }

  lemma {:induction false} WithKeyOfBuckets(s: seq<SymFreq>, p: nat, d: nat, key: nat)
    ensures WithKey(Buckets(s, p, d), key) == if Digit(key, p) < d then WithKey(s, key) else []
  {
    hide WithKey, Buckets, Digit, Bucket;
    BucketsUnfold(s, p, d, key);
    if d > 0 {
      WithKeyOfBuckets(s, p, d - 1, key);
      WithKeyOfBucket(s, p, d - 1, key);
      WithKeyAppend(Buckets(s, p, d - 1), Bucket(s, p, d - 1), key);
      JoinParts(WithKey(Buckets(s, p, d - 1), key), WithKey(Bucket(s, p, d - 1), key), WithKey(s, key),
                Digit(key, p) < d - 1, Digit(key, p) == d - 1);
    }
  }

  lemma {:induction false} PassIsStable(s: seq<SymFreq>, p: nat)
    ensures SameOrderPerKey(s, Pass(s, p))
  {
    forall key ensures WithKey(s, key) == WithKey(Pass(s, p), key) {
      WithKeyOfBuckets(s, p, 256, key);
    }
  }

  // ----- a pass extends the sorted digits by one

  ghost predicate SortedLow(s: seq<SymFreq>, p: nat) {
    forall i, j :: 0 <= i < j < |s| ==> Low(s[i].key, p) <= Low(s[j].key, p)
  }

  lemma {:induction false} BucketMember(s: seq<SymFreq>, p: nat, d: nat, x: SymFreq)
    requires x in Bucket(s, p, d)
    ensures x in s && Digit(x.key, p) == d
  {
    hide Digit;
    if x in Bucket(s[..|s| - 1], p, d) { BucketMember(s[..|s| - 1], p, d, x); }
  }

  lemma {:induction false} BucketsMember(s: seq<SymFreq>, p: nat, d: nat, x: SymFreq)
    requires x in Buckets(s, p, d)
    ensures Digit(x.key, p) < d
  {
    hide Digit;
    if x in Buckets(s, p, d - 1) {
      BucketsMember(s, p, d - 1, x);
    } else {
      BucketMember(s, p, d - 1, x);
    }
  }

  lemma {:induction false} BucketSorted(s: seq<SymFreq>, p: nat, d: nat)
    requires SortedLow(s, p)
    ensures SortedLow(Bucket(s, p, d), p)
  {
    hide Digit;
    if s != [] {
      var init, last := s[..|s| - 1], s[|s| - 1];
      BucketSorted(init, p, d);
      var b := Bucket(init, p, d);
      forall k | 0 <= k < |b| ensures Low(b[k].key, p) <= Low(last.key, p) {
        BucketMember(init, p, d, b[k]);
        var i :| 0 <= i < |init| && init[i] == b[k];
      }
    }
  }

  lemma {:induction false} BucketsSorted(s: seq<SymFreq>, p: nat, d: nat)
    requires SortedLow(s, p)
    ensures SortedLow(Buckets(s, p, d), p + 1)
  {
    if d > 0 {
      BucketsSorted(s, p, d - 1);
      BucketSorted(s, p, d - 1);
      hide Low, Digit, SortedLow, Bucket;
      forall x | x in Bucket(s, p, d - 1) ensures Digit(x.key, p) == d - 1 { BucketMember(s, p, d - 1, x); }
      forall x | x in Buckets(s, p, d - 1) ensures Digit(x.key, p) < d - 1 { BucketsMember(s, p, d - 1, x); }
      SortedAppend(Buckets(s, p, d - 1), Bucket(s, p, d - 1), p, d - 1);
    }
  }

  lemma {:induction false} SortedAppend(a: seq<SymFreq>, b: seq<SymFreq>, p: nat, d: nat)
    requires SortedLow(a, p + 1) && SortedLow(b, p)
    requires forall x :: x in a ==> Digit(x.key, p) < d
    requires forall x :: x in b ==> Digit(x.key, p) == d
    ensures SortedLow(a + b, p + 1)
  {
    hide Low, Digit;
    var c: seq<SymFreq> := a + b;
    forall i, j | 0 <= i < j < |c| ensures Low(c[i].key, p + 1) <= Low(c[j].key, p + 1) {
      if j >= |a| {
        assert c[j] in b;
        if i < |a| {
          assert c[i] in a;
          LowerDigit(c[i].key, c[j].key, p);
        } else {
          assert c[i] == b[i - |a|] && c[j] == b[j - |a|];
          assert c[i] in b;
          SameDigit(c[i].key, c[j].key, p);
        }
      }
    }
  }

  lemma {:induction false} LowerDigit(x: nat, y: nat, p: nat)
    requires Digit(x, p) < Digit(y, p)
    ensures Low(x, p + 1) <= Low(y, p + 1)
  {
    hide Digit, Low, Pow256;
    LowStep(x, p);
    LowStep(y, p);
    DigitOrder(Digit(x, p), Digit(y, p), Pow256(p), Low(x, p), Low(y, p));
  }

  lemma {:induction false} SameDigit(x: nat, y: nat, p: nat)
    requires Digit(x, p) == Digit(y, p) && Low(x, p) <= Low(y, p)
    ensures Low(x, p + 1) <= Low(y, p + 1)
  {
    hide Digit, Low, Pow256;
    LowStep(x, p);
    LowStep(y, p);
  }

  // ----- counting digits

  lemma {:induction false} BucketCount(s: seq<SymFreq>, p: nat, d: nat, x: SymFreq)
    ensures multiset(Bucket(s, p, d))[x] == if Digit(x.key, p) == d then multiset(s)[x] else 0
  {
    hide Digit;
    if s != [] {
      var init, last := s[..|s| - 1], s[|s| - 1];
      BucketCount(init, p, d, x);
      assert s == init + [last];
      assert multiset(init + [last]) == multiset(init) + multiset{last};
      if Digit(last.key, p) == d {
        assert multiset(Bucket(init, p, d) + [last]) == multiset(Bucket(init, p, d)) + multiset{last};
      } else {
        assert Bucket(s, p, d) == Bucket(init, p, d);
      }
    }
  }

  /** Reordering does not change how often a digit occurs. */
  lemma {:induction false} BucketSizeSame(s: seq<SymFreq>, t: seq<SymFreq>, p: nat, d: nat)
    requires multiset(s) == multiset(t)
    ensures |Bucket(s, p, d)| == |Bucket(t, p, d)|
  {
    var a, b := Bucket(s, p, d), Bucket(t, p, d);
    forall x ensures multiset(a)[x] == multiset(b)[x] {
      BucketCount(s, p, d, x);
      BucketCount(t, p, d, x);
    }
    assert multiset(a) == multiset(b);
    assert |multiset(a)| == |a| && |multiset(b)| == |b|;
  }

  ghost predicate Counted(hist: seq<nat>, s: seq<SymFreq>, p: nat, d: nat) {
    256 * p + d < |hist| && hist[256 * p + d] == |Bucket(s, p, d)|
  }

  ghost predicate Histogram(hist: seq<nat>, s: seq<SymFreq>, passes: nat) {
    forall p, d :: 0 <= p < passes && 0 <= d < 256 ==> Counted(hist, s, p, d)
  }

  /** Halfway through counting record x: passes before q have seen it. */
  ghost predicate HistogramUpTo(hist: seq<nat>, s: seq<SymFreq>, x: SymFreq, passes: nat, q: nat) {
    forall p, d :: 0 <= p < passes && 0 <= d < 256 ==> CountedUpTo(hist, s, x, q, p, d)
  }

  ghost predicate CountedUpTo(hist: seq<nat>, s: seq<SymFreq>, x: SymFreq, q: nat, p: nat, d: nat) {
    Counted(hist, if p < q then s + [x] else s, p, d)
  }

  lemma {:induction false} CountStep(hist: seq<nat>, hist': seq<nat>, s: seq<SymFreq>, x: SymFreq, passes: nat, q: nat)
    requires q < passes && |hist| == 256 * passes && HistogramUpTo(hist, s, x, passes, q)
    requires |hist'| == |hist| && hist'[256 * q + Digit(x.key, q)] == hist[256 * q + Digit(x.key, q)] + 1
    requires forall i :: 0 <= i < |hist| && i != 256 * q + Digit(x.key, q) ==> hist'[i] == hist[i]
    ensures HistogramUpTo(hist', s, x, passes, q + 1)
  {
    BucketSnocs(s, x, q);
    hide Bucket, Digit;
    var next := q + 1;
    forall p, d | 0 <= p < passes && 0 <= d < 256
      ensures CountedUpTo(hist', s, x, next, p, d)
    {
      assert CountedUpTo(hist, s, x, q, p, d);
    }
  }

  /** Counts one more record. */
  method CountRecord(hist: array<nat>, ghost s: seq<SymFreq>, x: SymFreq, passes: nat)
    requires hist.Length == 256 * passes && Histogram(hist[..], s, passes)
    modifies hist
    ensures Histogram(hist[..], s + [x], passes)
  {
    var q := 0;
    forall p, d | 0 <= p < passes && 0 <= d < 256 ensures CountedUpTo(hist[..], s, x, 0, p, d) {
      assert Counted(hist[..], s, p, d);
    }
    while q < passes
      invariant 0 <= q <= passes
      invariant HistogramUpTo(hist[..], s, x, passes, q)
    {
      hide HistogramUpTo, Digit;
      ghost var before := hist[..];
      hist[256 * q + Digit(x.key, q)] := hist[256 * q + Digit(x.key, q)] + 1;
      CountStep(before, hist[..], s, x, passes, q);
      q := q + 1;
    }
    forall p, d | 0 <= p < passes && 0 <= d < 256 ensures Counted(hist[..], s + [x], p, d) {
      assert CountedUpTo(hist[..], s, x, passes, p, d);
    }
  }

  lemma BucketSnocs(s: seq<SymFreq>, x: SymFreq, p: nat)
    ensures forall d :: 0 <= d < 256 ==>
      |Bucket(s + [x], p, d)| == |Bucket(s, p, d)| + if Digit(x.key, p) == d then 1 else 0
  {
    forall d | 0 <= d < 256 {
      BucketSnoc(s, x, p, d);
    }
  }

  method CountDigits(syms: array<SymFreq>, n: nat, hist: array<nat>, passes: nat)
    requires n <= syms.Length && hist.Length == 256 * passes
    requires forall i :: 0 <= i < hist.Length ==> hist[i] == 0
    modifies hist
    ensures Histogram(hist[..], syms[..n], passes)
  {
    hide Digit;
    for i := 0 to n
      invariant Histogram(hist[..], syms[..i], passes)
    {
      CountRecord(hist, syms[..i], syms[i], passes);
      assert syms[..i + 1] == syms[..i] + [syms[i]];
    }
  }

  /** Leading digits that are zero everywhere need no pass. */
  method PassesNeeded(n: nat, hist: array<nat>, passes: nat, ghost s: seq<SymFreq>) returns (total: nat)
    requires passes >= 1 && hist.Length == 256 * passes && |s| == n && Histogram(hist[..], s, passes)
    ensures 1 <= total <= passes
    ensures forall q, i :: total <= q < passes && 0 <= i < n ==> Digit(s[i].key, q) == 0
  {
    total := passes;
    while total > 1 && n == hist[(total - 1) * 256]
      invariant 1 <= total <= passes
      invariant forall q, i :: total <= q < passes && 0 <= i < n ==> Digit(s[i].key, q) == 0
    {
      assert Counted(hist[..], s, total - 1, 0);
      FullBucket(s, total - 1, 0);
      total := total - 1;
    }
  }

  lemma {:induction false} FullBucket(s: seq<SymFreq>, p: nat, d: nat)
    requires |Bucket(s, p, d)| == |s|
    ensures forall i :: 0 <= i < |s| ==> Digit(s[i].key, p) == d
  {
    hide Digit;
    if s != [] {
      FullBucket(s[..|s| - 1], p, d);
      forall i | 0 <= i < |s| ensures Digit(s[i].key, p) == d {
        if i < |s| - 1 { assert s[..|s| - 1][i] == s[i]; }
      }
    }
  }

  // ----- scattering the records of one pass

  /** The first i records of s that belong to bucket d have reached their places. */
  ghost predicate Placed(dst: seq<SymFreq>, s: seq<SymFreq>, i: nat, p: nat, d: nat)
    requires i <= |s|
  {
    var start, b := |Buckets(s, p, d)|, Bucket(s[..i], p, d);
    start + |b| <= |dst| && dst[start..start + |b|] == b
  }

  ghost function Slot(s: seq<SymFreq>, i: nat, p: nat, d: nat): nat
    requires i <= |s|
  {
    |Buckets(s, p, d)| + |Bucket(s[..i], p, d)|
  }

  lemma {:induction false} BucketPrefix(s: seq<SymFreq>, i: nat, p: nat, d: nat)
    requires i <= |s|
    ensures |Bucket(s[..i], p, d)| <= |Bucket(s, p, d)|
  {
    hide Digit;
    if i < |s| {
      assert s[..|s| - 1][..i] == s[..i];
      BucketPrefix(s[..|s| - 1], i, p, d);
    } else {
      assert s[..i] == s;
    }
  }

  /** The slot of the next record lies in its own bucket's range. */
  lemma {:induction false} SlotInRange(s: seq<SymFreq>, i: nat, p: nat, d: nat)
    requires i < |s| && d == Digit(s[i].key, p)
    ensures |Buckets(s, p, d)| <= Slot(s, i, p, d) < |Buckets(s, p, d + 1)| <= |s|
    ensures Slot(s, i + 1, p, d) == Slot(s, i, p, d) + 1
  {
    hide Digit;
    BucketPrefix(s, i + 1, p, d);
    assert s[..i + 1] == s[..i] + [s[i]];
    BucketSnoc(s[..i], s[i], p, d);
    PassLength(s, p);
    BucketsGrow(s, p, d + 1, 256);
  }

  lemma {:induction false} PlaceOwn(dst: seq<SymFreq>, s: seq<SymFreq>, i: nat, p: nat, d: nat)
    requires i < |s| && d == Digit(s[i].key, p) && |s| <= |dst| && Placed(dst, s, i, p, d)
    ensures Slot(s, i, p, d) < |s| && Placed(dst[Slot(s, i, p, d) := s[i]], s, i + 1, p, d)
  {
    hide Digit;
    SlotInRange(s, i, p, d);
    assert s[..i + 1] == s[..i] + [s[i]];
    BucketSnoc(s[..i], s[i], p, d);
    hide Bucket, Buckets, Digit;
    var start, b := |Buckets(s, p, d)|, Bucket(s[..i], p, d);
    var dst' := dst[start + |b| := s[i]];
    assert dst'[start..start + |b| + 1] == dst[start..start + |b|] + [s[i]];
  }

  lemma BucketsNext(s: seq<SymFreq>, p: nat, d: nat)
    ensures |Buckets(s, p, d + 1)| == |Buckets(s, p, d)| + |Bucket(s, p, d)|
  {
  }

  lemma {:induction false} OtherSlot(s: seq<SymFreq>, i: nat, p: nat, d: nat, e: nat)
    requires i < |s| && d == Digit(s[i].key, p) && e != d
    ensures Slot(s, i, p, d) < |Buckets(s, p, e)| || Slot(s, i, p, e) <= Slot(s, i, p, d)
    ensures Slot(s, i, p, d) < |s|
  {
    hide Bucket, Buckets, Digit;
    BucketsNext(s, p, e);
    SlotInRange(s, i, p, d);
    BucketPrefix(s, i, p, e);
    if e < d { BucketsGrow(s, p, e + 1, d); } else { BucketsGrow(s, p, d + 1, e); }
  }

  lemma {:induction false} PlaceOther(dst: seq<SymFreq>, s: seq<SymFreq>, i: nat, p: nat, d: nat, e: nat)
    requires i < |s| && d == Digit(s[i].key, p) && e != d && |s| <= |dst| && Placed(dst, s, i, p, e)
    ensures Slot(s, i, p, d) < |s| && Placed(dst[Slot(s, i, p, d) := s[i]], s, i + 1, p, e)
  {
    OtherSlot(s, i, p, d, e);
    assert s[..i + 1] == s[..i] + [s[i]];
    BucketSnoc(s[..i], s[i], p, e);
    hide Buckets, Digit;
    var start, b := |Buckets(s, p, e)|, Bucket(s[..i], p, e);
    var dst' := dst[Slot(s, i, p, d) := s[i]];
    assert Bucket(s[..i + 1], p, e) == b;
    assert dst'[start..start + |b|] == dst[start..start + |b|];
  }

  lemma {:induction false} NothingPlaced(dst: seq<SymFreq>, s: seq<SymFreq>, p: nat)
    requires |s| <= |dst|
    ensures forall d :: 0 <= d < 256 ==> Placed(dst, s, 0, p, d) && Slot(s, 0, p, d) == |Buckets(s, p, d)|
  {
    hide Digit;
    PassLength(s, p);
    forall d | 0 <= d < 256 ensures Placed(dst, s, 0, p, d) && Slot(s, 0, p, d) == |Buckets(s, p, d)| {
      BucketsGrow(s, p, d, 256);
      assert s[..0] == [] && Bucket([], p, d) == [];
    }
  }

  /** One record moves: its bucket grows, the other buckets stay. */
  lemma {:induction false} PlaceStep(dst: seq<SymFreq>, dst': seq<SymFreq>, s: seq<SymFreq>, i: nat, next: nat, p: nat, d: nat)
    requires i < |s| && next == i + 1 && d == Digit(s[i].key, p) && |s| <= |dst|
    requires forall e :: 0 <= e < 256 ==> Placed(dst, s, i, p, e)
    requires Slot(s, i, p, d) < |s| && dst' == dst[Slot(s, i, p, d) := s[i]]
    ensures forall e :: 0 <= e < 256 ==> Placed(dst', s, next, p, e)
    ensures forall e :: 0 <= e < 256 ==> Slot(s, next, p, e) == Slot(s, i, p, e) + if e == d then 1 else 0
  {
    forall e | 0 <= e < 256
      ensures Placed(dst', s, next, p, e)
      ensures Slot(s, next, p, e) == Slot(s, i, p, e) + if e == d then 1 else 0
    {
      assert s[..i + 1] == s[..i] + [s[i]];
      BucketSnoc(s[..i], s[i], p, e);
      hide Placed, Bucket, Digit;
      if e == d { PlaceOwn(dst, s, i, p, d); } else { PlaceOther(dst, s, i, p, d, e); }
    }
  }

  lemma {:induction false} PrefixPlaced(dst: seq<SymFreq>, s: seq<SymFreq>, p: nat, d: nat)
    requires |s| <= |dst| && d <= 256
    requires forall e :: 0 <= e < 256 ==> Placed(dst, s, |s|, p, e)
    ensures |Buckets(s, p, d)| <= |dst| && dst[..|Buckets(s, p, d)|] == Buckets(s, p, d)
  {
    hide Digit;
    PassLength(s, p);
    BucketsGrow(s, p, d, 256);
    if d > 0 {
      PrefixPlaced(dst, s, p, d - 1);
      assert Placed(dst, s, |s|, p, d - 1);
      assert s[..|s|] == s;
      hide Bucket;
      var start, b := |Buckets(s, p, d - 1)|, Bucket(s, p, d - 1);
      assert dst[..start + |b|] == dst[..start] + dst[start..start + |b|];
    }
  }

  lemma {:induction false} AllPlaced(dst: seq<SymFreq>, s: seq<SymFreq>, p: nat)
    requires |s| <= |dst|
    requires forall e :: 0 <= e < 256 ==> Placed(dst, s, |s|, p, e)
    ensures dst[..|s|] == Pass(s, p)
  {
    PrefixPlaced(dst, s, p, 256);
    PassLength(s, p);
  }

  /** Where each bucket starts. */
  method BucketOffsets(hist: array<nat>, pass: nat, ghost s: seq<SymFreq>) returns (offsets: array<nat>)
    requires 256 * pass + 256 <= hist.Length
    requires forall d :: 0 <= d < 256 ==> Counted(hist[..], s, pass, d)
    ensures fresh(offsets) && offsets.Length == 256
    ensures forall d :: 0 <= d < 256 ==> offsets[d] == |Buckets(s, pass, d)|
  {
    hide Bucket, Digit;
    offsets := new nat[256];
    var curOfs := 0;
    for i := 0 to 256
      invariant curOfs == |Buckets(s, pass, i)|
      invariant forall d :: 0 <= d < i ==> offsets[d] == |Buckets(s, pass, d)|
    {
      assert Counted(hist[..], s, pass, i);
      offsets[i] := curOfs;
      curOfs := curOfs + hist[256 * pass + i];
    }
  }

  /** Puts record i of s at the next free place of its bucket. */
  method ScatterRecord(dst: array<SymFreq>, offsets: array<nat>, ghost s: seq<SymFreq>, i: nat, ghost next: nat, p: nat, x: SymFreq)
    requires i < |s| <= dst.Length && x == s[i] && next == i + 1 && offsets.Length == 256
    requires forall e :: 0 <= e < 256 ==> offsets[e] == Slot(s, i, p, e)
    requires forall e :: 0 <= e < 256 ==> Placed(dst[..], s, i, p, e)
    modifies dst, offsets
    ensures forall e :: 0 <= e < 256 ==> offsets[e] == Slot(s, next, p, e)
    ensures forall e :: 0 <= e < 256 ==> Placed(dst[..], s, next, p, e)
  {
    var digit := Digit(x.key, p);
    SlotInRange(s, i, p, digit);
    hide Digit, Bucket, Buckets, Placed, Slot;
    ghost var before := dst[..];
    dst[offsets[digit]] := x;
    PlaceStep(before, dst[..], s, i, next, p, digit);
    offsets[digit] := offsets[digit] + 1;
  }

  /** Copies the records of `cur` to `dst`, bucket by bucket. */
  method ScatterPass(cur: array<SymFreq>, dst: array<SymFreq>, n: nat, hist: array<nat>, pass: nat)
    requires cur != dst && n <= cur.Length && n <= dst.Length && 256 * pass + 256 <= hist.Length
    requires forall d :: 0 <= d < 256 ==> Counted(hist[..], cur[..n], pass, d)
    modifies dst
    ensures dst[..n] == Pass(cur[..n], pass)
  {
    ghost var s := cur[..n];
    var offsets := BucketOffsets(hist, pass, s);
    hide Digit, Bucket, Buckets, Placed, Slot, Counted, Pass;
    NothingPlaced(dst[..], s, pass);
    for i := 0 to n
      invariant cur[..n] == s
      invariant forall e :: 0 <= e < 256 ==> offsets[e] == Slot(s, i, pass, e)
      invariant forall e :: 0 <= e < 256 ==> Placed(dst[..], s, i, pass, e)
    {
      ScatterRecord(dst, offsets, s, i, i + 1, pass, cur[i]);
    }
    AllPlaced(dst[..], s, pass);
  }

  // ----- the whole sort

  lemma {:induction false} ZeroDigits(key: nat, p: nat, q: nat)
    requires p <= q && key < Pow256(q)
    requires forall r :: p <= r < q ==> Digit(key, r) == 0
    ensures Low(key, p) == key
    decreases q - p
  {
    if p == q {
      DivUnique(key, Pow256(q), 0, key);
    } else {
      ZeroDigits(key, p + 1, q);
      LowStep(key, p);
    }
  }

  lemma {:induction false} SortedWhenDone(s: seq<SymFreq>, t: seq<SymFreq>, total: nat, passes: nat)
    requires SortedLow(t, total) && multiset(s) == multiset(t) && total <= passes
    requires forall i :: 0 <= i < |s| ==> s[i].key < Pow256(passes)
    requires forall q, i :: total <= q < passes && 0 <= i < |s| ==> Digit(s[i].key, q) == 0
    ensures SortedByKey(t)
  {
    forall i | 0 <= i < |t| ensures Low(t[i].key, total) == t[i].key {
      assert t[i] in multiset(t);
      assert t[i] in s;
      ZeroDigits(t[i].key, total, passes);
    }
  }

  lemma SameOrderTransitive(s: seq<SymFreq>, t: seq<SymFreq>, u: seq<SymFreq>)
    requires SameOrderPerKey(s, t) && SameOrderPerKey(t, u)
    ensures SameOrderPerKey(s, u)
  {
  }

  lemma {:induction false} StillCounted(hist: seq<nat>, s: seq<SymFreq>, t: seq<SymFreq>, passes: nat)
    requires Histogram(hist, s, passes) && multiset(s) == multiset(t)
    ensures Histogram(hist, t, passes)
  {
    forall p, d | 0 <= p < passes && 0 <= d < 256 ensures Counted(hist, t, p, d) {
      assert Counted(hist, s, p, d);
      BucketSizeSame(s, t, p, d);
    }
  }

  /** One more digit sorted, equal keys still in their original order. */
  lemma {:induction false} PassKeepsInvariant(s: seq<SymFreq>, t: seq<SymFreq>, p: nat)
    requires SortedLow(t, p) && SameOrderPerKey(s, t)
    ensures SortedLow(Pass(t, p), p + 1) && SameOrderPerKey(s, Pass(t, p))
    ensures multiset(s) == multiset(Pass(t, p))
  {
    BucketsSorted(t, p, 256);
    PassIsStable(t, p);
    SameOrderTransitive(s, t, Pass(t, p));
    SameOrderIsPermutation(s, Pass(t, p));
  }

  /** Sorts the first n records by key and returns the buffer that holds the result. */
  method RadixSortSyms(n: nat, syms0: array<SymFreq>, syms1: array<SymFreq>, passes: nat) returns (sorted: array<SymFreq>)
    requires syms0 != syms1 && n <= syms0.Length && n <= syms1.Length && passes >= 1
    requires forall i :: 0 <= i < n ==> syms0[i].key < Pow256(passes)
    modifies syms0, syms1
    ensures sorted == syms0 || sorted == syms1
    ensures StablySorted(old(syms0[..n]), sorted[..n])
  {
    ghost var s := syms0[..n];
    var hist := new nat[256 * passes](_ => 0);
    CountDigits(syms0, n, hist, passes);
    assert syms0[..n] == s;
    var totalPasses := PassesNeeded(n, hist, passes, s);
    var cur, next := syms0, syms1;
    assert SortedLow(s, 0) && SameOrderPerKey(s, s);
    hide Digit, Low, SortedLow, SameOrderPerKey, Histogram, Pass;
    var pass := 0;
    while pass < totalPasses
      invariant 0 <= pass <= totalPasses
      invariant {cur, next} == {syms0, syms1} && cur != next
      invariant SortedLow(cur[..n], pass) && SameOrderPerKey(s, cur[..n]) && multiset(s) == multiset(cur[..n])
      invariant Histogram(hist[..], s, passes)
    {
      ghost var t := cur[..n];
      StillCounted(hist[..], s, t, passes);
      ScatterPass(cur, next, n, hist, pass);
      PassKeepsInvariant(s, t, pass);
      cur, next := next, cur;
      pass := pass + 1;
    }
    sorted := cur;
    SortedWhenDone(s, cur[..n], totalPasses, passes);
  }
}
