/** Kraft sums, weighted path lengths, and the cost no prefix code can beat. */
module HuffmanCost {
  import opened Sequences
  import opened Arithmetic

  predicate AllAtMost(lens: seq<nat>, m: nat) {
    forall k :: 0 <= k < |lens| ==> lens[k] <= m
  }

  /** The share of the code space each length takes, in units of 2^-m. */
  function Shares(lens: seq<nat>, m: nat): (r: seq<nat>)
    requires AllAtMost(lens, m)
    ensures |r| == |lens|
    ensures forall k :: 0 <= k < |r| ==> r[k] == Pow2(m - lens[k])
  {
    seq(|lens|, k requires 0 <= k < |lens| => Pow2(m - lens[k]))
  }

  function Kraft(lens: seq<nat>, m: nat): (r: nat)
    requires AllAtMost(lens, m)
  {
    Sum(Shares(lens, m))
  }

  function Products(w: seq<nat>, lens: seq<nat>): (r: seq<nat>)
    requires |w| == |lens|
    ensures |r| == |w|
    ensures forall k :: 0 <= k < |r| ==> r[k] == w[k] * lens[k]
  {
    seq(|w|, k requires 0 <= k < |w| => w[k] * lens[k])
  }

  /** Total number of bits when the symbol with weight w[k] has a code of lens[k] bits. */
  function Cost(w: seq<nat>, lens: seq<nat>): (r: nat)
    requires |w| == |lens|
  {
    Sum(Products(w, lens))
  }

  // ----- the minimum of a multiset

  ghost predicate IsLeast(x: nat, m: multiset<nat>) {
    x in m && forall y :: y in m ==> x <= y
  }

  lemma {:induction false} MinExists(m: multiset<nat>, x: nat)
    requires x in m
    ensures exists z :: IsLeast(z, m)
    decreases x
  {
    if IsLeast(x, m) {
    } else {
      var y :| y in m && y < x;
      MinExists(m, y);
    }
  }

  ghost function Min(m: multiset<nat>): nat
    requires m != multiset{}
  {
    var w :| w in m;
    MinExists(m, w);
    var x :| IsLeast(x, m);
    x
  }

  lemma MinIsLeast(m: multiset<nat>)
    requires m != multiset{}
    ensures IsLeast(Min(m), m)
  {
    var w :| w in m;
    MinExists(m, w);
  }

  /** The sum of all joins made when always joining two smallest weights: two smallest are
      taken out and their sum is put back until one weight is left. */
  ghost function Huffman(m: multiset<nat>): (r: nat)
    decreases |m|
  {
    if m == multiset{} then 0 else
      var a := Min(m);
      var m1 := m - multiset{a};
      if m1 == multiset{} then 0 else
        var b := Min(m1);
        var m2 := m1 - multiset{b};
        MinIsLeast(m);
        MinIsLeast(m1);
        assert |m2| == |m| - 2;
        a + b + Huffman(m2 + multiset{a + b})
  }

  lemma HuffmanStep(m: multiset<nat>, m1: multiset<nat>, m2: multiset<nat>, m3: multiset<nat>,
                    a: nat, b: nat, joined: nat)
    requires m != multiset{} && a == Min(m) && m1 == m - multiset{a}
    requires m1 != multiset{} && b == Min(m1) && m2 == m1 - multiset{b}
    requires joined == a + b && m3 == m2 + multiset{joined}
    ensures Huffman(m) == joined + Huffman(m3)
  {
  }

  // ----- no code is cheaper

  lemma {:induction false} CostWithout(w: seq<nat>, lens: seq<nat>, k: nat)
    requires |w| == |lens| && k < |w|
    ensures Cost(w, lens) == Cost(Without(w, k), Without(lens, k)) + w[k] * lens[k]
  {
    SumWithout(Products(w, lens), k);
    assert Without(Products(w, lens), k) == Products(Without(w, k), Without(lens, k));
  }

  lemma {:induction false} KraftWithout(lens: seq<nat>, m: nat, k: nat)
    requires AllAtMost(lens, m) && k < |lens|
    ensures AllAtMost(Without(lens, k), m)
    ensures Kraft(lens, m) == Kraft(Without(lens, k), m) + Pow2(m - lens[k])
  {
    SumWithout(Shares(lens, m), k);
    assert Without(Shares(lens, m), k) == Shares(Without(lens, k), m);
  }

  lemma {:induction false} CostSnoc(w: seq<nat>, lens: seq<nat>, x: nat, l: nat)
    requires |w| == |lens|
    ensures Cost(w + [x], lens + [l]) == Cost(w, lens) + x * l
  {
    SumSnoc(Products(w, lens), x * l);
    assert Products(w + [x], lens + [l]) == Products(w, lens) + [x * l];
  }

  lemma {:induction false} KraftSnoc(lens: seq<nat>, l: nat, m: nat)
    requires AllAtMost(lens, m) && l <= m
    ensures AllAtMost(lens + [l], m)
    ensures Kraft(lens + [l], m) == Kraft(lens, m) + Pow2(m - l)
  {
    SumSnoc(Shares(lens, m), Pow2(m - l));
    assert Shares(lens + [l], m) == Shares(lens, m) + [Pow2(m - l)];
  }

  lemma SwappedAt(s: seq<nat>, i: nat, j: nat)
    requires i < |s| && j < |s|
    ensures Swapped(s, i, j)[i] == s[j]
    ensures forall k :: 0 <= k < |s| ==> Swapped(s, i, j)[k] in s
  {
  }

  lemma {:induction false} SwapKeepsKraft(lens: seq<nat>, m: nat, i: nat, j: nat)
    requires i < |lens| && j < |lens| && AllAtMost(lens, m)
    ensures AllAtMost(Swapped(lens, i, j), m)
    ensures Kraft(Swapped(lens, i, j), m) == Kraft(lens, m)
  {
    var sh := Shares(lens, m);
    var half: seq<nat> := sh[i := sh[j]];
    SumUpdate(sh, i, sh[j]);
    SumUpdate(half, j, sh[i]);
    assert Shares(Swapped(lens, i, j), m) == half[j := sh[i]];
  }

  lemma SwapProducts(a: nat, b: nat, x: nat, y: nat)
    requires a <= b && x <= y
    ensures a * y + b * x <= a * x + b * y
  {
    assert (b - a) * (y - x) >= 0;
  }

  /** Giving the lighter symbol the longer code never costs more. */
  lemma {:induction false} SwapHelps(w: seq<nat>, lens: seq<nat>, i: nat, j: nat)
    requires |w| == |lens| && i < |w| && j < |w|
    requires w[i] <= w[j] && lens[i] <= lens[j]
    ensures Cost(w, Swapped(lens, i, j)) <= Cost(w, lens)
  {
    var t := Swapped(lens, i, j);
    if i == j {
      assert t == lens;
    } else {
      var pr := Products(w, lens);
      var pi: nat, pj: nat := w[i] * lens[j], w[j] * lens[i];
      var half: seq<nat> := pr[i := pi];
      SumUpdate(pr, i, pi);
      SumUpdate(half, j, pj);
      SwapProducts(w[i], w[j], lens[i], lens[j]);
      assert Products(w, t) == half[j := pj];
    }
  }

  lemma {:induction false} MaxPosition(s: seq<nat>) returns (p: nat)
    requires s != []
    ensures p < |s| && forall k :: 0 <= k < |s| ==> s[k] <= s[p]
  {
    if |s| == 1 {
      p := 0;
    } else {
      p := MaxPosition(s[..|s| - 1]);
      if s[|s| - 1] > s[p] { p := |s| - 1; }
    }
  }

  lemma {:induction false} LightestPosition(w: seq<nat>) returns (p: nat)
    requires |w| > 0
    ensures p < |w| && w[p] == Min(multiset(w))
    ensures forall k :: 0 <= k < |w| ==> w[p] <= w[k]
  {
    assert w[0] in multiset(w);
    MinIsLeast(multiset(w));
    var x := Min(multiset(w));
    assert x in w;
    p :| 0 <= p < |w| && w[p] == x;
    forall k | 0 <= k < |w| ensures w[p] <= w[k] {
      assert w[k] in multiset(w);
    }
  }

  lemma {:induction false} MultisetWithout(s: seq<nat>, k: nat)
    requires k < |s|
    ensures multiset(Without(s, k)) == multiset(s) - multiset{s[k]}
  {
    assert s == s[..k] + ([s[k]] + s[k + 1..]);
    assert multiset(s) == multiset(s[..k]) + multiset([s[k]]) + multiset(s[k + 1..]);
  }

  /** If the longest code of `lens` has length y, one more code of length y still fits. */
  lemma {:induction false} RoomForSibling(lens: seq<nat>, m: nat, y: nat)
    requires AllAtMost(lens, y) && y <= m
    requires Kraft(lens, m) < Pow2(m)
    ensures Kraft(lens, m) + Pow2(m - y) <= Pow2(m)
  {
    var unit := Pow2(m - y);
    forall k | 0 <= k < |lens| ensures Shares(lens, m)[k] == unit * Shares(lens, y)[k] {
      Pow2Add(m - y, y - lens[k]);
    }
    assert Shares(lens, m) == Scaled(Shares(lens, y), unit);
    SumScaled(Shares(lens, y), unit);
    Pow2Add(m - y, y);
    MultipleGap(unit, Kraft(lens, y), Pow2(y));
  }

  /** First half of an exchange step: take out the lightest weight, giving it a longest code. */
  lemma {:induction false} TakeLightest(w: seq<nat>, lens: seq<nat>, m: nat)
      returns (a: nat, x: nat, w1: seq<nat>, lens1: seq<nat>)
    requires |w| == |lens| && |w| > 0
    requires AllAtMost(lens, m)
    ensures multiset(w) != multiset{} && a == Min(multiset(w)) && multiset(w1) == multiset(w) - multiset{a}
    ensures x in lens && AllAtMost(lens, x) && x <= m
    ensures |w1| == |lens1| == |w| - 1 && AllAtMost(lens1, x) && AllAtMost(lens1, m)
    ensures Kraft(lens, m) == Kraft(lens1, m) + Pow2(m - x)
    ensures Cost(w, lens) >= Cost(w1, lens1) + a * x
  {
    hide Kraft, Cost, Min, Swapped;
    var i := LightestPosition(w);
    var p := MaxPosition(lens);
    SwappedAt(lens, i, p);
    SwapHelps(w, lens, i, p);
    SwapKeepsKraft(lens, m, i, p);
    var lens0 := Swapped(lens, i, p);
    CostWithout(w, lens0, i);
    KraftWithout(lens0, m, i);
    MultisetWithout(w, i);
    a, x, w1, lens1 := w[i], lens0[i], Without(w, i), Without(lens0, i);
  }

  lemma JoinedCost(a: nat, b: nat, x: nat, y: nat)
    requires 0 < y <= x
    ensures a * x + b * y >= (a + b) * (y - 1) + a + b
  {
    assert a * x >= a * y;
  }

  /** Second half of an exchange step: put the two lightest weights back as one, one bit up. */
  lemma {:induction false} PutBackJoined(w2: seq<nat>, lens2: seq<nat>, m: nat, a: nat, b: nat, joined: nat, x: nat, y: nat)
      returns (w3: seq<nat>, lens3: seq<nat>)
    requires joined == a + b
    requires |w2| == |lens2| && AllAtMost(lens2, y) && y <= x <= m && AllAtMost(lens2, m)
    requires Kraft(lens2, m) + 2 * Pow2(m - y) <= Pow2(m)
    ensures |w3| == |lens3| == |w2| + 1 && multiset(w3) == multiset(w2) + multiset{joined}
    ensures AllAtMost(lens3, m) && Kraft(lens3, m) <= Pow2(m)
    ensures Cost(w2, lens2) + a * x + b * y >= Cost(w3, lens3) + joined
  {
    assert y > 0;
    w3, lens3 := w2 + [joined], lens2 + [y - 1];
    CostSnoc(w2, lens2, joined, y - 1);
    KraftSnoc(lens2, y - 1, m);
    JoinedCost(a, b, x, y);
  }

  /** One exchange-and-merge step: a code for `w` yields one for the joined weights that is
      cheaper by at least the weight of the join. */
  lemma {:induction false} MergeStep(w: seq<nat>, lens: seq<nat>, m: nat)
      returns (w3: seq<nat>, lens3: seq<nat>)
    requires |w| == |lens| && |w| > 1
    requires AllAtMost(lens, m) && Kraft(lens, m) <= Pow2(m)
    ensures |w3| == |lens3| == |w| - 1
    ensures AllAtMost(lens3, m) && Kraft(lens3, m) <= Pow2(m)
    ensures Cost(w, lens) + Huffman(multiset(w3)) >= Cost(w3, lens3) + Huffman(multiset(w))
  {
    var a, x, w1, lens1 := TakeLightest(w, lens, m);
    var b, y, w2, lens2 := TakeLightest(w1, lens1, m);
    RoomForSibling(lens1, m, y);
    var joined := a + b;
    w3, lens3 := PutBackJoined(w2, lens2, m, a, b, joined, x, y);
    HuffmanStep(multiset(w), multiset(w1), multiset(w2), multiset(w3), a, b, joined);
  }

  /** Every set of code lengths that fits the code space costs at least Huffman's sum. */
  lemma {:induction false} NoLengthsAreCheaper(w: seq<nat>, lens: seq<nat>, m: nat)
    requires |w| == |lens|
    requires AllAtMost(lens, m) && Kraft(lens, m) <= Pow2(m)
    ensures Cost(w, lens) >= Huffman(multiset(w))
    decreases |w|
  {
    if |w| > 1 {
      var w3, lens3 := MergeStep(w, lens, m);
      NoLengthsAreCheaper(w3, lens3, m);
    } else if |w| == 1 {
      assert w == [w[0]];
      MinIsLeast(multiset(w));
    }
  }
}
