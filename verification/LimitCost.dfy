/** What limiting the code lengths can cost: little more than the shortest code of any lengths. */
module LimitCost {
  import opened Arithmetic
  import opened HuffmanCost
  import opened MergeWeights
  import opened MergeOptimality
  import opened MinimumRedundancy
  import opened LengthLimit
  import opened CanonicalCodes
  import opened CodeLengths

  /** The limit of DEFLATE's codes. */
  const LIMIT: nat := 15

  // ----- code space beyond that of the longest codes

  /** How much more space a code of l bits takes than one of the longest, in units of those. */
  function Gap(l: nat): (g: nat)
    requires l <= LIMIT
    ensures g + 1 == Pow2(LIMIT - l)
  {
    Pow2(LIMIT - l) - 1
  }

  function Gaps(c: seq<int>, k: nat): int
    requires k < |c| && k <= LIMIT
  {
    Space(c, k, LIMIT) - Total(c, k)
  }

  lemma GapsStep(c: seq<int>, k: nat)
    requires 1 <= k < |c| && k <= LIMIT
    ensures Gaps(c, k) == Gaps(c, k - 1) + c[k] * Gap(k)
  {
    assert c[k] * Pow2(LIMIT - k) == c[k] * Gap(k) + c[k];
  }

  lemma {:induction false} GapsSame(c: seq<int>, d: seq<int>, k: nat)
    requires k < |c| && k < |d| && k <= LIMIT && forall l :: 1 <= l <= k ==> c[l] == d[l]
    ensures Gaps(c, k) == Gaps(d, k)
  {
    SpaceSame(c, d, k, LIMIT);
    TotalSame(c, d, k);
  }

  /** Lengths not in use, and the limit, add nothing. */
  lemma {:induction false} GapsEnd(c: seq<int>, i: nat, k: nat)
    requires i <= k < |c| && k <= LIMIT && forall l :: i < l <= k && l < LIMIT ==> c[l] == 0
    ensures Gaps(c, k) == Gaps(c, i)
    decreases k - i
  {
    if i < k {
      GapsStep(c, k);
      GapsEnd(c, i, k - 1);
      NoGap();
      if k == LIMIT { Nothing(c[k], Gap(k)); }
    }
  }

  lemma NoGap()
    ensures Gap(LIMIT) == 0
  {
    assert Pow2(0) == 1;
  }

  lemma Nothing(a: int, b: int)
    requires b == 0
    ensures a * b == 0
  {
  }

  // ----- which lengths the repairs touch

  /** After t repairs of f: a is the least length touched, by x of its codes; all lengths below are as they were. Every
      longer code of f has been brought to the limit before, and so have all but one of the x. */
  ghost predicate Touched(f: seq<int>, c: seq<int>, a: nat, x: nat, t: nat) {
    && Counts(f) && Counts(c) && 1 <= a < LIMIT && 1 <= x <= f[a] && c[a] == f[a] - x
    && (forall l :: 1 <= l < a ==> c[l] == f[l])
    && (x - 1) * Gap(a) + Gaps(f, LIMIT) - Gaps(f, a) <= t - 1
  }

  ghost predicate Repairing(f: seq<int>, c: seq<int>, a: nat, x: nat, t: nat) {
    && Counts(f) && Counts(c) && (if t == 0 then c == f else Touched(f, c, a, x, t))
    && Overfull(c, LIMIT) && Total(c, LIMIT) == Total(f, LIMIT) <= Pow2(LIMIT)
    && Space(c, LIMIT, LIMIT) == Space(f, LIMIT, LIMIT) - t
  }

  /** Touching the next code at length i, when no shorter code but those of i and below is left. */
  lemma NowTouched(f: seq<int>, c: seq<int>, i: nat, y: nat, t: nat)
    requires Counts(f) && Counts(c) && 1 <= i < LIMIT && c[i] == f[i] - y
    requires (forall l :: 1 <= l < i ==> c[l] == f[l]) && forall l :: i < l < LIMIT ==> c[l] == 0
    requires Total(c, LIMIT) == Total(f, LIMIT) && Space(c, LIMIT, LIMIT) == Space(f, LIMIT, LIMIT) - t
    ensures y * Gap(i) + Gaps(f, LIMIT) - Gaps(f, i) == t
  {
    hide Space, Total, Gap;
    GapsEnd(c, i, LIMIT);
    GapsStep(c, i);
    GapsStep(f, i);
    GapsSame(c, f, i - 1);
    assert c[i] * Gap(i) == f[i] * Gap(i) - y * Gap(i);
  }

  lemma SplitAt(c: seq<int>, i: nat)
    requires Counts(c) && i == Deepest(c[LIMIT := c[LIMIT] - 1], LIMIT - 1) > 0
    ensures i < LIMIT && c[i] >= 1 && (forall l :: i < l < LIMIT ==> c[l] == 0)
    ensures var d := SplitOne(c, LIMIT);
      d[i] == c[i] - 1 && forall l :: 1 <= l < i ==> d[l] == c[l]
  {
    var d := c[LIMIT := c[LIMIT] - 1];
    forall l | i < l < LIMIT ensures c[l] == 0 { assert d[l] == 0; }
  }

  lemma {:induction false} RepairOnce(f: seq<int>, c: seq<int>, a: nat, x: nat, t: nat) returns (a': nat, x': nat)
    requires Repairing(f, c, a, x, t) && Space(c, LIMIT, LIMIT) > Pow2(LIMIT)
    ensures Repairing(f, SplitOne(c, LIMIT), a', x', t + 1)
  {
    hide Space, Total, Gap, Overfull, SplitOne, Deepest, Gaps;
    SomethingToSplit(c, LIMIT);
    SplitOneKeeps(c, LIMIT);
    var i := Deepest(c[LIMIT := c[LIMIT] - 1], LIMIT - 1);
    SplitAt(c, i);
    if t > 0 && i > a {
      a', x' := a, x;
    } else {
      var y := if t > 0 && i == a then x else 0;
      NowTouched(f, c, i, y, t);
      a', x' := i, y + 1;
    }
  }

  lemma {:induction false} RepairsTouch(f: seq<int>, c: seq<int>, a: nat, x: nat, t: nat, e: nat) returns (a': nat, x': nat)
    requires |c| == MAX_HUFF_CODESIZE + 1 && Repairing(f, c, a, x, t) && Space(c, LIMIT, LIMIT) == Pow2(LIMIT) + e
    ensures Repairing(f, Repaired(c, LIMIT, e), a', x', t + e)
    decreases e
  {
    hide Space, Total, Repairing, SplitOne;
    if e == 0 {
      a', x' := a, x;
    } else {
      a', x' := RepairOnce(f, c, a, x, t);
      SpaceAfter(f, c, a, x, t, SplitOne(c, LIMIT), a', x');
      a', x' := RepairsTouch(f, SplitOne(c, LIMIT), a', x', t + 1, e - 1);
    }
  }

  lemma SpaceAfter(f: seq<int>, c: seq<int>, a: nat, x: nat, t: nat, d: seq<int>, a': nat, x': nat)
    requires Repairing(f, c, a, x, t) && Repairing(f, d, a', x', t + 1)
    ensures Space(d, LIMIT, LIMIT) == Space(c, LIMIT, LIMIT) - 1
  {
  }

  // ----- the lengths given out, position by position

  lemma {:induction false} LongestDownSame(c: seq<int>, d: seq<int>, k: nat)
    requires Counts(c) && Counts(d) && k < |c| && forall l :: 1 <= l <= k ==> c[l] == d[l]
    ensures LongestDown(c, k) == LongestDown(d, k)
  {
    if k > 0 { LongestDownSame(c, d, k - 1); }
  }

  lemma {:induction false} LongestDownEnds(c: seq<int>, k: nat, m: nat)
    requires Counts(c) && m <= k < |c|
    ensures 0 <= Total(c, m) <= Total(c, k)
    ensures LongestDown(c, k)[Total(c, k) - Total(c, m)..] == LongestDown(c, m)
    decreases k
  {
    assert |LongestDown(c, m)| == Total(c, m);
    if m < k {
      LongestDownEnds(c, k - 1, m);
      DropFront(Repeat(k, c[k]), LongestDown(c, k - 1), Total(c, k - 1) - Total(c, m));
    }
  }

  lemma DropFront(a: seq<nat>, b: seq<nat>, n: nat)
    requires n <= |b|
    ensures (a + b)[|a| + n..] == b[n..]
  {
  }

  lemma DropOf(s: seq<nat>, a: nat, b: nat)
    requires a + b <= |s|
    ensures s[a..][b..] == s[a + b..]
  {
  }

  lemma DropSome(k: nat, m: nat, rest: seq<nat>, n: nat)
    requires n <= m
    ensures (Repeat(k, m) + rest)[n..] == Repeat(k, m - n) + rest
  {
    assert Repeat(k, m)[n..] == Repeat(k, m - n);
  }

  predicate InLimit(s: seq<nat>) {
    forall j :: 0 <= j < |s| ==> s[j] <= LIMIT
  }

  function GapSeq(s: seq<nat>): (r: seq<nat>)
    requires InLimit(s)
    ensures |r| == |s| && forall j :: 0 <= j < |r| ==> r[j] == Gap(s[j])
  {
    seq(|s|, j requires 0 <= j < |s| => Gap(s[j]))
  }

  function GapSum(s: seq<nat>): nat
    requires InLimit(s)
  {
    Sum(GapSeq(s))
  }

  lemma GapAppend(a: seq<nat>, b: seq<nat>)
    requires InLimit(a) && InLimit(b)
    ensures InLimit(a + b) && GapSum(a + b) == GapSum(a) + GapSum(b)
  {
    SumAppend(GapSeq(a), GapSeq(b));
    assert GapSeq(a + b) == GapSeq(a) + GapSeq(b);
  }

  lemma {:induction false} GapRepeat(k: nat, m: nat)
    requires k <= LIMIT
    ensures GapSum(Repeat(k, m)) == m * Gap(k)
    decreases m
  {
    hide Gap, GapSum;
    if m == 0 {
      NoCost();
      assert Repeat(k, m) == [];
    } else {
      GapRepeat(k, m - 1);
      assert Repeat(k, m) == Repeat(k, m - 1) + [k];
      GapAppend(Repeat(k, m - 1), [k]);
      OneGap(k);
      OneMore(m, Gap(k));
    }
  }

  lemma OneMore(m: nat, g: nat)
    requires m > 0
    ensures m * g == (m - 1) * g + g
  {
  }

  lemma {:induction false} GapsAreSum(c: seq<int>, k: nat)
    requires Counts(c) && k < |c| && k <= LIMIT
    ensures GapSum(LongestDown(c, k)) == Gaps(c, k)
  {
    hide Gap;
    if k > 0 {
      GapsAreSum(c, k - 1);
      GapsStep(c, k);
      GapRepeat(k, c[k]);
      GapAppend(Repeat(k, c[k]), LongestDown(c, k - 1));
    }
  }

  /** How many codes the repairs have touched: the same number of the rarest symbols. */
  function TouchedCount(f: seq<int>, a: nat, x: nat): int
    requires 1 <= a < LIMIT < |f|
  {
    Total(f, LIMIT) - Total(f, a) + x
  }

  /** The lengths given out, of which those down to a bits stand in front of the rest. */
  lemma LevelSplit(c: seq<int>, a: nat)
    requires Counts(c) && 1 <= a < LIMIT
    ensures 0 <= Total(c, a) <= Total(c, LIMIT) == |LongestDown(c, LIMIT)|
    ensures LongestDown(c, LIMIT)[Total(c, LIMIT) - Total(c, a)..] == Repeat(a, c[a]) + LongestDown(c, a - 1)
    ensures Total(c, a) == Total(c, a - 1) + c[a] && |LongestDown(c, a - 1)| == Total(c, a - 1)
  {
    LongestDownEnds(c, LIMIT, a);
  }

  lemma BehindTouched(was: seq<nat>, from: nat, a: nat, m: nat, x: nat, rest: seq<nat>)
    requires from <= |was| && was[from..] == Repeat(a, m) + rest && 1 <= x <= m
    ensures from + x <= |was| && was[from + x..] == Repeat(a, m - x) + rest
    ensures was[from + x - 1..] == Repeat(a, m - (x - 1)) + rest && was[from + x - 1] == a
  {
    DropSome(a, m, rest, x);
    DropSome(a, m, rest, x - 1);
    DropOf(was, from, x);
    DropOf(was, from, x - 1);
    assert was[from + x - 1] == was[from + x - 1..][0];
  }

  /** Symbols beyond those touched keep their lengths. */
  lemma TouchedPositions(f: seq<int>, c: seq<int>, a: nat, x: nat, t: nat)
    requires Touched(f, c, a, x, t) && Total(c, LIMIT) == Total(f, LIMIT)
    ensures 1 <= TouchedCount(f, a, x) <= Total(f, LIMIT)
    ensures var p, was, now := TouchedCount(f, a, x), LongestDown(f, LIMIT), LongestDown(c, LIMIT);
      && |was| == |now| == Total(f, LIMIT) && now[p..] == was[p..] && was[p - 1] == a
      && GapSum(was[..p - 1]) <= t - 1
  {
    hide Gap, Gaps, LongestDown, Repeat, Total, GapSum;
    var p, was, now := TouchedCount(f, a, x), LongestDown(f, LIMIT), LongestDown(c, LIMIT);
    LevelSplit(f, a);
    LevelSplit(c, a);
    LongestDownSame(f, c, a - 1);
    TotalSame(f, c, a - 1);
    BehindTouched(was, Total(f, LIMIT) - Total(f, a), a, f[a], x, LongestDown(f, a - 1));
    FrontGaps(f, a, x, was, p);
  }

  lemma FrontGaps(f: seq<int>, a: nat, x: nat, was: seq<nat>, p: int)
    requires Counts(f) && 1 <= a < LIMIT && 1 <= x <= f[a] && was == LongestDown(f, LIMIT) && 1 <= p <= |was|
    requires was[p - 1..] == Repeat(a, f[a] - (x - 1)) + LongestDown(f, a - 1)
    ensures GapSum(was[..p - 1]) == (x - 1) * Gap(a) + Gaps(f, LIMIT) - Gaps(f, a)
  {
    hide Gap, Gaps, GapSum;
    GapsAreSum(f, LIMIT);
    GapsAreSum(f, a - 1);
    GapsStep(f, a);
    GapRepeat(a, f[a] - (x - 1));
    GapAppend(Repeat(a, f[a] - (x - 1)), LongestDown(f, a - 1));
    assert was == was[..p - 1] + was[p - 1..];
    GapAppend(was[..p - 1], was[p - 1..]);
    assert (f[a] - (x - 1)) * Gap(a) == f[a] * Gap(a) - (x - 1) * Gap(a);
  }

  // ----- what that costs

  /** Every touched symbol but the last pays for its gap, in units of the total weight over 500; the last pays extra. */
  ghost predicate Pays(w: seq<nat>, was: seq<nat>, now: seq<nat>, p: nat, total: nat, extra: nat)
    requires |w| == |was| == |now| && 1 <= p <= |w| && InLimit(was)
  {
    && (forall j :: 0 <= j < p - 1 ==> 500 * (w[j] * now[j]) <= 500 * (w[j] * was[j]) + total * Gap(was[j]))
    && 500 * (w[p - 1] * now[p - 1]) <= 500 * (w[p - 1] * was[p - 1]) + total * extra
    && (forall j :: p <= j < |w| ==> now[j] == was[j])
  }

  lemma {:induction false} CostOfPays(w: seq<nat>, was: seq<nat>, now: seq<nat>, p: nat, total: nat, extra: nat, k: nat)
    requires |w| == |was| == |now| && 1 <= p <= |w| && InLimit(was) && Pays(w, was, now, p, total, extra) && k <= |w|
    ensures k < p ==> 500 * Cost(w[..k], now[..k]) <= 500 * Cost(w[..k], was[..k]) + total * GapSum(was[..k])
    ensures k >= p ==>
      500 * Cost(w[..k], now[..k]) <= 500 * Cost(w[..k], was[..k]) + total * GapSum(was[..p - 1]) + total * extra
  {
    hide Gap, GapSum, Cost;
    if k == 0 {
      NoCost();
    } else {
      var i := k - 1;
      CostOfPays(w, was, now, p, total, extra, i);
      assert w[..k] == w[..i] + [w[i]] && was[..k] == was[..i] + [was[i]] && now[..k] == now[..i] + [now[i]];
      CostSnoc(w[..i], now[..i], w[i], now[i]);
      CostSnoc(w[..i], was[..i], w[i], was[i]);
      if k < p {
        GapAppend(was[..i], [was[i]]);
        OneGap(was[i]);
        Distribute(total, GapSum(was[..i]), Gap(was[i]));
      }
    }
  }

  lemma NoCost()
    ensures Cost([], []) == 0 && GapSum([]) == 0
  {
  }

  lemma OneGap(l: nat)
    requires l <= LIMIT
    ensures GapSum([l]) == Gap(l)
  {
    hide Gap;
    assert GapSeq([l]) == [Gap(l)];
    SumSnoc([], Gap(l));
    assert [] + [Gap(l)] == [Gap(l)];
    assert Sum([]) == 0;
  }

  lemma Distribute(a: nat, b: nat, c: nat)
    ensures a * (b + c) == a * b + a * c
  {
  }

  // ----- the folded lengths are no longer than the measured ones

  function CutOff(lens: seq<nat>): (r: seq<nat>)
    ensures |r| == |lens| && forall j :: 0 <= j < |r| ==> r[j] == Least(lens[j], LIMIT)
  {
    seq(|lens|, j requires 0 <= j < |lens| => Least(lens[j], LIMIT))
  }

  lemma {:induction false} CutOffCount(lens: seq<nat>, l: nat)
    requires l < LIMIT
    ensures CountOf(CutOff(lens), l) == CountOf(lens, l)
  {
    if lens != [] {
      CutOffCount(lens[..|lens| - 1], l);
      assert CutOff(lens)[..|lens| - 1] == CutOff(lens[..|lens| - 1]);
    }
  }

  function Tally(lens: seq<nat>): (c: seq<int>)
    ensures |c| == MAX_HUFF_CODESIZE + 1 && forall l :: 0 <= l < |c| ==> c[l] == CountOf(lens, l)
  {
    seq(MAX_HUFF_CODESIZE + 1, l requires 0 <= l <= MAX_HUFF_CODESIZE => CountOf(lens, l))
  }

  /** Folding cuts every length off at the limit. */
  lemma FoldedIsCutOff(before: seq<int>, lens: seq<nat>)
    requires Counts(before) && CountsOf(before, lens) && Descending(lens)
    requires forall j :: 0 <= j < |lens| ==> 1 <= lens[j] <= 32
    ensures Counts(Folded(before, LIMIT)) && Total(Folded(before, LIMIT), LIMIT) == |lens|
    ensures LongestDown(Folded(before, LIMIT), LIMIT) == CutOff(lens)
  {
    hide Total, CutOff;
    var f, cut := Folded(before, LIMIT), CutOff(lens);
    var g := Tally(cut);
    TotalOfCounts(before, lens, 32);
    TotalUpdate(before, LIMIT, LIMIT, f[LIMIT]);
    TotalOfCounts(g, cut, LIMIT);
    CutOffRange(lens);
    forall l | 1 <= l < LIMIT ensures g[l] == f[l] { CutOffCount(lens, l); }
    LastCount(f, g, LIMIT);
    TotalGrows(before, LIMIT, 32);
    LongestDownSame(f, g, LIMIT);
    LongestDownIsMeasured(g, cut, LIMIT);
  }

  lemma CutOffRange(lens: seq<nat>)
    requires Descending(lens) && forall j :: 0 <= j < |lens| ==> 1 <= lens[j] <= 32
    ensures Descending(CutOff(lens)) && forall j :: 0 <= j < |lens| ==> 1 <= CutOff(lens)[j] <= LIMIT
  {
  }

  lemma LastCount(f: seq<int>, g: seq<int>, k: nat)
    requires 1 <= k < |f| && k < |g| && (forall l :: 1 <= l < k ==> f[l] == g[l]) && Total(f, k) == Total(g, k)
    ensures f[k] == g[k]
  {
    TotalSame(f, g, k - 1);
  }

  // ----- how much is repaired, and how far down

  /** If there are codes beyond length a, those up to it leave some space. */
  lemma {:induction false} SpaceBelow(before: seq<int>, deepest: nat, a: nat)
    requires Counts(before) && Space(before, 32, 32) == TWO_TO_32 && 1 <= a < deepest <= 32 && before[deepest] > 0
    ensures Space(before, a, a) < Pow2(a)
  {
    hide Space;
    SpaceRises(before, a, deepest - 1, 32);
    SpaceRises(before, deepest, 32, 32);
    SpaceUnfold(before, deepest);
    SpaceScales(before, a, a, 32 - a);
    Pow2Add(a, 32 - a);
    Pow32();
    CancelStrict(Space(before, a, a), Pow2(a), Pow2(32 - a));
  }

  lemma SpaceUnfold(c: seq<int>, k: nat)
    requires 1 <= k < |c| && k <= 32 && c[k] > 0
    ensures Space(c, k, 32) > Space(c, k - 1, 32)
  {
    assert c[k] * Pow2(32 - k) > 0;
  }

  /** In units of the longest codes. */
  lemma FoldedBelow(before: seq<int>, deepest: nat, a: nat)
    requires Counts(before) && Space(before, 32, 32) == TWO_TO_32 && 1 <= a < LIMIT < deepest <= 32 && before[deepest] > 0
    ensures Space(Folded(before, LIMIT), a, LIMIT) + Pow2(LIMIT - a) <= Pow2(LIMIT)
  {
    hide Space;
    SpaceBelow(before, deepest, a);
    SpaceSame(before, Folded(before, LIMIT), a, LIMIT);
    SpaceScales(before, a, a, LIMIT - a);
    Pow2Add(a, LIMIT - a);
    OneLess(Space(before, a, a), Pow2(a), Pow2(LIMIT - a));
  }

  lemma OneLess(a: int, b: int, unit: nat)
    requires a < b
    ensures a * unit + unit <= b * unit
  {
    assert (b - a - 1) * unit >= 0;
  }

  /** Fewer repairs than codes; and only long codes are touched, if there are few codes. */
  lemma RepairsAreFew(before: seq<int>, deepest: nat, c: seq<int>, a: nat, x: nat, t: nat)
    requires Counts(before) && Space(before, 32, 32) == TWO_TO_32 && LIMIT < deepest <= 32 && before[deepest] > 0
    requires var f := Folded(before, LIMIT);
      && Touched(f, c, a, x, t) && Space(f, LIMIT, LIMIT) == Pow2(LIMIT) + t
    ensures var n := Total(Folded(before, LIMIT), LIMIT); t <= n && Pow2(LIMIT - a) < n
  {
    hide Space, Total, Folded, Gap;
    var f := Folded(before, LIMIT);
    FoldedBelow(before, deepest, a);
    FoldedBelow(before, deepest, LIMIT - 1);
    TouchedFew(f, c, a, x, t);
  }

  lemma TouchedFew(f: seq<int>, c: seq<int>, a: nat, x: nat, t: nat)
    requires Touched(f, c, a, x, t) && Space(f, LIMIT, LIMIT) == Pow2(LIMIT) + t
    requires Space(f, a, LIMIT) + Pow2(LIMIT - a) <= Pow2(LIMIT) && Space(f, LIMIT - 1, LIMIT) + Pow2(1) <= Pow2(LIMIT)
    ensures t <= Total(f, LIMIT) && Pow2(LIMIT - a) < Total(f, LIMIT)
  {
    hide Space, Total, Gap, Pow2;
    TotalGrows(f, a, LIMIT);
    assert (x - 1) * Gap(a) >= 0;
    ManyLongest(f, t);
  }

  lemma ManyLongest(f: seq<int>, t: nat)
    requires Counts(f) && Space(f, LIMIT, LIMIT) == Pow2(LIMIT) + t && Space(f, LIMIT - 1, LIMIT) + Pow2(1) <= Pow2(LIMIT)
    ensures t <= Total(f, LIMIT)
  {
    hide Space, Total, Pow2;
    TotalGrows(f, LIMIT - 1, LIMIT);
    LongestCodes(f);
  }

  lemma LongestCodes(f: seq<int>)
    requires Counts(f)
    ensures Space(f, LIMIT, LIMIT) == Space(f, LIMIT - 1, LIMIT) + f[LIMIT]
    ensures Total(f, LIMIT) == Total(f, LIMIT - 1) + f[LIMIT]
  {
    assert Pow2(LIMIT - LIMIT) == 1;
  }

  // ----- weights

  /** Halving a code's space costs no more than its share of the total weight for each unit it frees. */
  lemma GapPays(l: nat)
    requires 1 <= l < LIMIT
    ensures 500 * (LIMIT - l) <= Fib(l + 1) * Gap(l)
  {
    FibSmall();
    PowSmall();
    if l == 1 {
    } else if l == 2 {
    } else if l == 3 {
    } else if l == 4 {
    } else if l == 5 {
    } else if l == 6 {
    } else if l == 7 {
    } else {
      GapPaysToo(l);
    }
  }

  lemma GapPaysToo(l: nat)
    requires 8 <= l < LIMIT
    ensures 500 * (LIMIT - l) <= Fib(l + 1) * Gap(l)
  {
    FibSmall();
    PowSmall();
    if l == 8 {
    } else if l == 9 {
    } else if l == 10 {
    } else if l == 11 {
    } else if l == 12 {
    } else if l == 13 {
    }
  }

  lemma FibSmall()
    ensures Fib(2) == 1 && Fib(3) == 2 && Fib(4) == 3 && Fib(5) == 5 && Fib(6) == 8 && Fib(7) == 13 && Fib(8) == 21
    ensures Fib(9) == 34 && Fib(10) == 55 && Fib(11) == 89 && Fib(12) == 144 && Fib(13) == 233 && Fib(14) == 377 && Fib(15) == 610
  {
    assert Fib(5) == 5 && Fib(6) == 8;
    assert Fib(9) == 34 && Fib(10) == 55;
    assert Fib(13) == 233 && Fib(14) == 377;
  }

  lemma PowSmall()
    ensures Pow2(1) == 2 && Pow2(2) == 4 && Pow2(3) == 8 && Pow2(4) == 16 && Pow2(5) == 32 && Pow2(6) == 64 && Pow2(7) == 128
    ensures Pow2(8) == 256 && Pow2(9) == 512 && Pow2(10) == 1024 && Pow2(11) == 2048 && Pow2(12) == 4096 && Pow2(13) == 8192
    ensures Pow2(14) == 16384
  {
    assert Pow2(4) == 16;
    assert Pow2(8) == 256;
    assert Pow2(12) == 4096;
  }

  lemma OnePays(w: nat, l: nat, now: nat, total: nat)
    requires 1 <= l <= LIMIT && 1 <= now <= LIMIT && (l < LIMIT ==> w * Fib(l + 1) <= total)
    ensures 500 * (w * now) <= 500 * (w * l) + total * Gap(l)
  {
    hide Gap, Fib;
    TimesMost(w, now, LIMIT);
    if l < LIMIT {
      GapPays(l);
      Shares500(w, LIMIT - l, Fib(l + 1), Gap(l), total);
      assert w * LIMIT == w * l + w * (LIMIT - l);
    } else {
      assert total * Gap(l) >= 0;
    }
  }

  lemma TimesMost(w: nat, a: nat, b: nat)
    requires a <= b
    ensures w * a <= w * b
  {
    assert w * (b - a) >= 0;
  }

  lemma Shares500(w: nat, more: nat, fib: nat, gap: nat, total: nat)
    requires 500 * more <= fib * gap && w * fib <= total
    ensures 500 * (w * more) <= total * gap
  {
    TimesMost(w, 500 * more, fib * gap);
    TimesMost(gap, w * fib, total);
    assert w * (fib * gap) == gap * (w * fib);
    assert w * (500 * more) == 500 * (w * more);
  }

  /** What the last code touched may cost, with at most 2^k codes. */
  ghost predicate LastPays(k: nat, extra: nat) {
    forall a :: 1 <= a < LIMIT && LIMIT - a < k ==> ExtraPays(a, extra)
  }

  predicate ExtraPays(a: nat, extra: nat)
    requires a < LIMIT
  {
    500 * (LIMIT - a) <= extra * Fib(a + 1)
  }

  lemma {:induction false} LastPaysExtra()
    ensures LastPays(9, 191) && LastPays(5, 14)
  {
    FibSmall();
  }

  lemma LastOnePays(w: nat, a: nat, now: nat, total: nat, extra: nat)
    requires 1 <= a < LIMIT && now <= LIMIT && w * Fib(a + 1) <= total && ExtraPays(a, extra)
    ensures 500 * (w * now) <= 500 * (w * a) + total * extra
  {
    hide Fib;
    TimesMost(w, now, LIMIT);
    Shares500(w, LIMIT - a, Fib(a + 1), extra, total);
    assert w * LIMIT == w * a + w * (LIMIT - a);
  }

  // ----- the cost of limited lengths

  lemma {:induction false} CostRises(w: seq<nat>, a: seq<nat>, b: seq<nat>)
    requires |w| == |a| == |b| && forall j :: 0 <= j < |w| ==> a[j] <= b[j]
    ensures Cost(w, a) <= Cost(w, b)
  {
    if w != [] {
      var i := |w| - 1;
      CostRises(w[..i], a[..i], b[..i]);
      assert w == w[..i] + [w[i]] && a == a[..i] + [a[i]] && b == b[..i] + [b[i]];
      CostSnoc(w[..i], a[..i], w[i], a[i]);
      CostSnoc(w[..i], b[..i], w[i], b[i]);
      TimesMost(w[i], a[i], b[i]);
    }
  }

  /** Weights are small where lengths are, measured or cut off. */
  lemma WeightAt(w: seq<nat>, modulus: nat, lens: seq<nat>, j: nat)
    requires |w| >= 2 && MergedLengths(w, modulus, lens) && Sorted(w) && Sum(w) < modulus && j < |w| == |lens|
    ensures w[j] * Fib(Least(lens[j], LIMIT) + 1) <= Sum(w)
  {
    hide Fib, Sum, MergedLengths;
    MergedLeaf(w, modulus, lens, j);
    FibMonotone(Least(lens[j], LIMIT) + 1, lens[j] + 1);
    TimesMost(w[j], Fib(Least(lens[j], LIMIT) + 1), Fib(lens[j] + 1));
  }

  /** The repairs of f, all e of them, that lead to c. */
  ghost predicate Limiting(before: seq<int>, lens: seq<nat>, f: seq<int>, c: seq<int>, e: nat) {
    && Counts(before) && Space(before, 32, 32) == TWO_TO_32
    && CountsOf(before, lens) && f == Folded(before, LIMIT)
    && Counts(f) && c == Repaired(f, LIMIT, e) && Counts(c) && Total(f, LIMIT) == Total(c, LIMIT) == |lens| <= Pow2(LIMIT)
    && LongestDown(f, LIMIT) == CutOff(lens)
    && Overfull(f, LIMIT) && Space(f, LIMIT, LIMIT) == Pow2(LIMIT) + e
  }

  lemma LimitsAre(w: seq<nat>, modulus: nat, lens: seq<nat>, before: seq<int>, c: seq<int>) returns (f: seq<int>, e: nat)
    requires |w| >= 2 && MergedLengths(w, modulus, lens) && lens[0] <= 32 && LimitsTo(before, lens, LIMIT, c)
    requires |w| <= Pow2(LIMIT)
    ensures |lens| == |w| && Descending(lens) && (forall j :: 0 <= j < |lens| ==> 1 <= lens[j] <= 32) && Limiting(before, lens, f, c, e)
  {
    hide Space, Total, MergedLengths, Overfull, Repaired, LongestDown;
    MergedIsComplete(w, modulus, lens, 32);
    SameCount(w, modulus, lens);
    f, e := Folded(before, LIMIT), Space(Folded(before, LIMIT), LIMIT, LIMIT) - Pow2(LIMIT);
    FoldedIsCutOff(before, lens);
    TotalOfCounts(before, lens, 32);
    FoldedSpace(before, LIMIT);
    RepairBalances(f, LIMIT, e);
  }

  lemma SameCount(w: seq<nat>, modulus: nat, lens: seq<nat>)
    requires MergedLengths(w, modulus, lens)
    ensures |w| == |lens|
  {
  }

  lemma TouchedCost(w: seq<nat>, modulus: nat, lens: seq<nat>, before: seq<int>, f: seq<int>, c: seq<int>, e: nat, k: nat, extra: nat)
    requires |w| >= 2 && MergedLengths(w, modulus, lens) && Sorted(w) && Sum(w) < modulus && |lens| == |w|
    requires LIMIT < lens[0] <= 32 && (forall j :: 0 <= j < |lens| ==> 1 <= lens[j]) && Limiting(before, lens, f, c, e) && e > 0
    requires |w| <= Pow2(k) && LastPays(k, extra)
    ensures 500 * Cost(w, LongestDown(c, LIMIT)) <= 500 * Cost(w, CutOff(lens)) + Sum(w) * (|w| + extra)
  {
    hide Space, Total, MergedLengths, Overfull, Repaired, Folded, LongestDown, Sum, Cost, Fib, Gap, GapSum, Pays, Touched, LastPays,
      CountsOf, Pow2, TouchedCount;
    var a, x := RepairsTouch(f, f, 0, 0, 0, e);
    DeepestCounted(before, lens);
    RepairsAreFew(before, lens[0], c, a, x, e);
    TouchedPositions(f, c, a, x, e);
    TouchedLevel(f, c, a, x, e);
    var p: nat := TouchedCount(f, a, x);
    LevelOf(a, k, |w|);
    var was, now := CutOff(lens), LongestDown(c, LIMIT);
    AllPay(w, modulus, lens, now, p, a, k, extra);
    CostOfPays(w, was, now, p, Sum(w), extra, |w|);
    assert w[..|w|] == w && was[..|w|] == was && now[..|w|] == now;
    TimesMost(Sum(w), GapSum(was[..p - 1]), |w|);
    Distribute(Sum(w), |w|, extra);
  }

  lemma TouchedLevel(f: seq<int>, c: seq<int>, a: nat, x: nat, t: nat)
    requires Touched(f, c, a, x, t)
    ensures 1 <= a < LIMIT
  {
  }

  /** Limited lengths cost at most a share of the total weight more than the shortest there are. */
  lemma LimitedCost(w: seq<nat>, modulus: nat, lens: seq<nat>, before: seq<int>, c: seq<int>, k: nat, extra: nat)
    requires |w| >= 2 && MergedLengths(w, modulus, lens) && Sorted(w) && Sum(w) < modulus
    requires LIMIT < lens[0] <= 32 && LimitsTo(before, lens, LIMIT, c)
    requires |w| <= Pow2(k) <= Pow2(LIMIT) && LastPays(k, extra)
    ensures Counts(c) && Total(c, LIMIT) == |w|
    ensures 500 * Cost(w, LongestDown(c, LIMIT)) <= 500 * Cost(w, lens) + Sum(w) * (|w| + extra)
  {
    hide Space, Total, MergedLengths, Overfull, Repaired, Folded, LongestDown, Sum, Cost, LastPays, LimitsTo, CountsOf, Pow2;
    var f, e := LimitsAre(w, modulus, lens, before, c);
    CostRises(w, CutOff(lens), lens);
    if e == 0 {
      NotRepaired(f);
      SomeShare(Sum(w), |w| + extra);
    } else {
      TouchedCost(w, modulus, lens, before, f, c, e, k, extra);
    }
  }

  lemma NotRepaired(f: seq<int>)
    requires |f| > LIMIT
    ensures Repaired(f, LIMIT, 0) == f
  {
  }

  lemma SomeShare(a: nat, b: nat)
    ensures a * b >= 0
  {
  }

  lemma DeepestCounted(before: seq<int>, lens: seq<nat>)
    requires CountsOf(before, lens) && |before| == MAX_HUFF_CODESIZE + 1 && lens != [] && LIMIT < lens[0] <= 32
    ensures before[lens[0]] > 0
  {
    CountedOnce(lens, 0);
  }

  lemma {:induction false} CountedOnce(s: seq<nat>, i: nat)
    requires i < |s|
    ensures CountOf(s, s[i]) > 0
  {
    if i < |s| - 1 { CountedOnce(s[..|s| - 1], i); }
  }

  lemma LevelOf(a: nat, k: nat, n: nat)
    requires 1 <= a < LIMIT && Pow2(LIMIT - a) < n <= Pow2(k)
    ensures LIMIT - a < k
  {
    if k <= LIMIT - a { Pow2Monotone(k, LIMIT - a); }
  }

  lemma AllPay(w: seq<nat>, modulus: nat, lens: seq<nat>, now: seq<nat>, p: nat, a: nat, k: nat, extra: nat)
    requires |w| >= 2 && MergedLengths(w, modulus, lens) && Sorted(w) && Sum(w) < modulus && |now| == |w| == |lens|
    requires (forall j :: 0 <= j < |w| ==> 1 <= now[j] <= LIMIT) && forall j :: 0 <= j < |w| ==> 1 <= lens[j]
    requires 1 <= p <= |w| && now[p..] == CutOff(lens)[p..] && CutOff(lens)[p - 1] == a
    requires 1 <= a < LIMIT && LIMIT - a < k && LastPays(k, extra)
    ensures Pays(w, CutOff(lens), now, p, Sum(w), extra)
  {
    hide MergedLengths, Sum, Fib, Gap, ExtraPays;
    var was := CutOff(lens);
    forall j | 0 <= j < p - 1 ensures 500 * (w[j] * now[j]) <= 500 * (w[j] * was[j]) + Sum(w) * Gap(was[j]) {
      WeightAt(w, modulus, lens, j);
      OnePays(w[j], was[j], now[j], Sum(w));
    }
    WeightAt(w, modulus, lens, p - 1);
    LastOnePays(w[p - 1], a, now[p - 1], Sum(w), extra);
    forall j | p <= j < |w| ensures now[j] == was[j] { assert now[p..][j - p] == was[p..][j - p]; }
  }
}
