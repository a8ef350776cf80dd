/** Powers of two and sums over sequences, shared by every other module. */
module Arithmetic {

  function Pow2(n: nat): (p: nat)
    ensures p > 0
  {
    if n == 0 then 1 else 2 * Pow2(n - 1)
  }

  lemma {:induction false} Pow2Add(a: nat, b: nat)
    ensures Pow2(a + b) == Pow2(a) * Pow2(b)
  {
    if a > 0 {
      Pow2Add(a - 1, b);
      assert Pow2(a + b) == 2 * Pow2((a - 1) + b);
      assert Pow2(a) * Pow2(b) == 2 * (Pow2(a - 1) * Pow2(b));
    }
  }

  lemma {:induction false} Pow2Monotone(a: nat, b: nat)
    requires a <= b
    ensures Pow2(a) <= Pow2(b)
    ensures a < b ==> 2 * Pow2(a) <= Pow2(b)
  {
    if a < b {
      Pow2Monotone(a, b - 1);
    }
  }

  function Sum(s: seq<nat>): (r: nat)
  {
    if s == [] then 0 else Sum(s[..|s| - 1]) + s[|s| - 1]
  }

  lemma {:induction false} SumSnoc(s: seq<nat>, x: nat)
    ensures Sum(s + [x]) == Sum(s) + x
  {
    assert (s + [x])[..|s|] == s;
  }

  lemma {:induction false} SumAppend(a: seq<nat>, b: seq<nat>)
    ensures Sum(a + b) == Sum(a) + Sum(b)
  {
    if b == [] {
      assert a + b == a;
    } else {
      assert (a + b)[..|a + b| - 1] == a + b[..|b| - 1];
      SumAppend(a, b[..|b| - 1]);
    }
  }

  lemma {:induction false} SumTake(s: seq<nat>, k: nat)
    requires k < |s|
    ensures Sum(s[..k + 1]) == Sum(s[..k]) + s[k]
  {
    assert s[..k + 1][..k] == s[..k];
  }

  lemma {:induction false} SumHead(s: seq<nat>)
    requires s != []
    ensures Sum(s) == s[0] + Sum(s[1..])
  {
    SumAppend(s[..1], s[1..]);
    assert s == s[..1] + s[1..];
    assert Sum(s[..1]) == s[0];
  }

  /** A part of a sum is at most the whole. */
  lemma {:induction false} SumPart(s: seq<nat>, k: nat)
    requires k < |s|
    ensures s[k] <= Sum(s)
  {
    if k < |s| - 1 {
      SumPart(s[..|s| - 1], k);
    }
  }

  /** What is left of `s` without position `k`. */
  function Without<T>(s: seq<T>, k: nat): (r: seq<T>)
    requires k < |s|
    ensures |r| == |s| - 1
  {
    s[..k] + s[k + 1..]
  }

  lemma {:induction false} SumWithout(s: seq<nat>, k: nat)
    requires k < |s|
    ensures Sum(s) == Sum(Without(s, k)) + s[k]
  {
    assert s == s[..k] + ([s[k]] + s[k + 1..]);
    SumAppend(s[..k], [s[k]] + s[k + 1..]);
    SumAppend([s[k]], s[k + 1..]);
    SumAppend(s[..k], s[k + 1..]);
    assert Sum([s[k]]) == s[k];
  }

  lemma {:induction false} SumConstant(s: seq<nat>, c: nat)
    requires forall k :: 0 <= k < |s| ==> s[k] == c
    ensures Sum(s) == |s| * c
  {
    if s != [] {
      SumConstant(s[..|s| - 1], c);
      assert |s| * c == (|s| - 1) * c + c;
    }
  }

  lemma {:induction false} SumPointwise(s: seq<nat>, t: seq<nat>)
    requires |s| == |t|
    requires forall k :: 0 <= k < |s| ==> s[k] <= t[k]
    ensures Sum(s) <= Sum(t)
  {
    if s != [] {
      SumPointwise(s[..|s| - 1], t[..|s| - 1]);
    }
  }

  lemma {:induction false} SumUpdate(s: seq<nat>, k: nat, x: nat)
    requires k < |s|
    ensures Sum(s[k := x]) == Sum(s) - s[k] + x
  {
    SumWithout(s, k);
    SumWithout(s[k := x], k);
    assert Without(s[k := x], k) == Without(s, k);
  }

  function Scaled(s: seq<nat>, unit: nat): (r: seq<nat>)
    ensures |r| == |s|
    ensures forall k :: 0 <= k < |r| ==> r[k] == unit * s[k]
  {
    seq(|s|, k requires 0 <= k < |s| => unit * s[k])
  }

  lemma {:induction false} SumScaled(s: seq<nat>, unit: nat)
    ensures Sum(Scaled(s, unit)) == unit * Sum(s)
  {
    if s != [] {
      SumScaled(s[..|s| - 1], unit);
      assert Scaled(s, unit)[..|s| - 1] == Scaled(s[..|s| - 1], unit);
    }
  }

  lemma ProductMonotone(unit: nat, a: nat, b: nat)
    requires a <= b
    ensures unit * a <= unit * b
  {
  }

  /** Two different multiples of `unit` are at least `unit` apart. */
  lemma MultipleGap(unit: nat, a: nat, b: nat)
    requires unit * a < unit * b
    ensures unit * a + unit <= unit * b
  {
    if b <= a {
      ProductMonotone(unit, b, a);
    } else {
      ProductMonotone(unit, a + 1, b);
    }
  }

  lemma DivParts(a: nat, b: nat) returns (q: nat, r: nat)
    requires b > 0
    ensures q == a / b && r == a % b && a == b * q + r && r < b
  {
    q, r := a / b, a % b;
  }

  /** Quotient and remainder are the only numbers that split `a` this way. */
  lemma DivUnique(a: nat, b: nat, q: nat, r: nat)
    requires b > 0 && a == b * q + r && r < b
    ensures a / b == q && a % b == r
  {
    var q', r' := DivParts(a, b);
    var d := q' - q;
    assert b * d == b * q' - b * q == r - r';
    assert d > 0 ==> b * d >= b;
    assert d < 0 ==> b * d <= -(b as int);
  }

  function Least(a: nat, b: nat): nat { if a <= b then a else b }

  lemma ModUnique(x: nat, n: nat, q: nat, r: nat)
    requires n > 0 && x == q * n + r && r < n
    ensures x % n == r
  {
    var q', r' := x / n, x % n;
    var d := q' - q;
    assert d * n == r - r';
    assert d > 0 ==> d * n >= n;
    assert d < 0 ==> d * n <= -(n as int);
  }

  lemma ModWithin(p: nat, i: nat, n: nat)
    requires n > 0 && p % n + i < n
    ensures (p + i) % n == p % n + i
  {
    ModUnique(p + i, n, p / n, p % n + i);
  }

  lemma ModApart(p: nat, q: nat, n: nat)
    requires n > 0 && p < q < p + n
    ensures p % n != q % n
  {
    var d := q / n - p / n;
    assert q - p == d * n + (q % n - p % n);
    assert d >= 1 ==> d * n >= n;
    assert d <= 0 ==> d * n <= 0;
    assert d <= -1 ==> d * n <= -(n as int);
  }

  lemma SmallMod(x: nat, n: nat)
    requires x < n
    ensures x % n == x
  {
  }

  /** v shifted right by n bits. */
  function Shifted(v: nat, n: nat): (r: nat)
    ensures r <= v
  {
    if n == 0 then v else Shifted(v, n - 1) / 2
  }

  lemma {:induction false} ShiftedIs(v: nat, n: nat)
    ensures Shifted(v, n) == v / Pow2(n)
  {
    if n > 0 {
      ShiftedIs(v, n - 1);
      HalfAgain(v, Pow2(n - 1));
    }
  }

  lemma ShiftOnce(v: nat, n: nat)
    ensures Shifted(v, n) / 2 == Shifted(v, n + 1)
  {
  }

  lemma HalfAgain(v: nat, unit: nat)
    requires unit > 0
    ensures v / unit / 2 == v / (2 * unit)
  {
    var q, r := DivParts(v, unit);
    assert unit * q == (2 * unit) * (q / 2) + unit * (q % 2);
    assert q % 2 == 1 ==> unit * (q % 2) == unit;
    DivUnique(v, 2 * unit, q / 2, unit * (q % 2) + r);
  }

  method Power(n: nat) returns (p: nat)
    ensures p == Pow2(n)
  {
    p := 1;
    for i := 0 to n
      invariant p == Pow2(i)
    {
      p := 2 * p;
    }
  }
}
