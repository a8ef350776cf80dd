/** The compressor's buffer of LZ codes: groups of up to eight tokens, each behind a byte of flags. */
module LzCodeBuffer {
  import opened Wrappers
  import opened Arithmetic
  import opened LzTokens

  const CODE_BUF_SIZE: nat := 65536

  // ----- layout

  function TokenBytes(t: Token): (r: seq<nat>)
    requires Codable(t)
  {
    match t
    case Literal(b) => [b]
    case Match(len, dist) => [len - MIN_MATCH, (dist - 1) % 256, (dist - 1) / 256]
  }

  function Body(tokens: seq<Token>): (r: seq<nat>)
    requires AllCodable(tokens)
    ensures |r| >= |tokens|
  {
    if tokens == [] then [] else Body(tokens[..|tokens| - 1]) + TokenBytes(tokens[|tokens| - 1])
  }

  /** Bit k is set if token k is a match. */
  function FlagsOf(tokens: seq<Token>): (r: nat)
  {
    if tokens == [] then 0
    else FlagsOf(tokens[..|tokens| - 1]) + if tokens[|tokens| - 1].Match? then Pow2(|tokens| - 1) else 0
  }

  function Group(tokens: seq<Token>): (r: seq<nat>)
    requires AllCodable(tokens)
    ensures |r| > |tokens|
  {
    [FlagsOf(tokens)] + Body(tokens)
  }

  /** Tokens in the last group, if there are any. */
  function LastGroup(n: nat): (k: nat)
    requires n > 0
    ensures 1 <= k <= 8 && k <= n && (n - k) % 8 == 0
  {
    (n - 1) % 8 + 1
  }

  function Layout(tokens: seq<Token>): (r: seq<nat>)
    requires AllCodable(tokens)
    ensures |r| >= |tokens|
  {
    if tokens == [] then []
    else
      var k := |tokens| - LastGroup(|tokens|);
      Layout(tokens[..k]) + Group(tokens[k..])
  }

  lemma {:induction false} BodySnoc(tokens: seq<Token>, t: Token)
    requires AllCodable(tokens) && Codable(t)
    ensures Body(tokens + [t]) == Body(tokens) + TokenBytes(t)
  {
    assert (tokens + [t])[..|tokens|] == tokens;
  }

  lemma {:induction false} FlagsSnoc(tokens: seq<Token>, t: Token)
    ensures FlagsOf(tokens + [t]) == FlagsOf(tokens) + if t.Match? then Pow2(|tokens|) else 0
  {
    assert (tokens + [t])[..|tokens|] == tokens;
  }

  // ----- recording

  /** `full` fills whole groups; `cur` is the group being written behind the flag byte at `flagsAt`. */
  ghost predicate Holds(b: seq<Byte>, next: nat, flagsAt: nat, flagsLeft: nat, full: seq<Token>, cur: seq<Token>) {
    && AllCodable(full) && AllCodable(cur)
    && |full| % 8 == 0 && 1 <= flagsLeft <= 8 && |cur| == 8 - flagsLeft
    && |b| == CODE_BUF_SIZE && flagsAt == |Layout(full)| && next == flagsAt + 1 + |Body(cur)| && next <= |b|
    && b[..flagsAt] == Layout(full) && b[flagsAt + 1..next] == Body(cur)
    && b[flagsAt] / Pow2(flagsLeft) == FlagsOf(cur)
  }

  /** The flag byte with one more flag shifted in. */
  function PushFlag(flags: Byte, isMatch: bool): Byte
  {
    flags / 2 + if isMatch then 128 else 0
  }

  lemma Pow2Table()
    ensures Pow2(0) == 1 && Pow2(1) == 2 && Pow2(2) == 4 && Pow2(3) == 8 && Pow2(4) == 16
    ensures Pow2(5) == 32 && Pow2(6) == 64 && Pow2(7) == 128 && Pow2(8) == 256
  {
    assert Pow2(4) == 16;
  }

  lemma PushFlagKeeps(flags: Byte, left: nat, isMatch: bool)
    requires 1 <= left <= 8
    ensures left == 1 ==> PushFlag(flags, isMatch) / Pow2(left - 1) == PushFlag(flags, isMatch)
    ensures PushFlag(flags, isMatch) / Pow2(left - 1) == flags / Pow2(left) + if isMatch then Pow2(8 - left) else 0
  {
    Pow2Add(8 - left, left - 1);
    Pow2Table();
    HalfShift(flags, Pow2(left - 1), if isMatch then Pow2(8 - left) else 0);
  }

  lemma HalfShift(flags: nat, unit: nat, top: nat)
    requires unit > 0
    ensures (flags / 2 + unit * top) / unit == flags / (2 * unit) + top
  {
    var q, r := DivParts(flags, 2 * unit);
    assert (2 * unit) * q == 2 * (unit * q);
    assert unit * (q + top) == unit * q + unit * top;
    DivUnique(flags / 2 + unit * top, unit, q + top, r / 2);
  }

  /** Another token, in a group that still has room for more after it. */
  lemma HoldsMore(b: seq<Byte>, next: nat, flagsAt: nat, flagsLeft: nat, full: seq<Token>, cur: seq<Token>,
                  t: Token, b': seq<Byte>, next': nat)
    requires Holds(b, next, flagsAt, flagsLeft, full, cur) && Codable(t)
    requires next' == next + |TokenBytes(t)| <= |b'| && |b'| == |b|
    requires b'[..flagsAt] == b[..flagsAt] && b'[flagsAt] == PushFlag(b[flagsAt], t.Match?)
    requires b'[flagsAt + 1..next'] == b[flagsAt + 1..next] + TokenBytes(t)
    ensures flagsLeft > 1 ==> Holds(b', next', flagsAt, flagsLeft - 1, full, cur + [t])
    ensures flagsLeft == 1 && next' < |b'| ==> Holds(b', next' + 1, next', 8, full + (cur + [t]), [])
  {
    hide Layout, Body, FlagsOf, TokenBytes, Codable, Pow2, PushFlag;
    BodySnoc(cur, t);
    FlagsSnoc(cur, t);
    PushFlagKeeps(b[flagsAt], flagsLeft, t.Match?);
    if flagsLeft == 1 && next' < |b'| {
      WholeGroup(b', next', flagsAt, full, cur + [t]);
    }
  }

  lemma WholeGroup(b: seq<Byte>, next: nat, flagsAt: nat, full: seq<Token>, group: seq<Token>)
    requires AllCodable(full) && AllCodable(group) && |full| % 8 == 0 && |group| == 8
    requires |b| == CODE_BUF_SIZE && flagsAt == |Layout(full)| && next == flagsAt + 1 + |Body(group)| < |b|
    requires b[..flagsAt] == Layout(full) && b[flagsAt + 1..next] == Body(group)
    requires b[flagsAt] == FlagsOf(group)
    ensures Holds(b, next + 1, next, 8, full + group, [])
  {
    hide Layout, Body, FlagsOf, Codable;
    LayoutGroup(full, group);
    JoinGroup(b, flagsAt, next, Layout(full), Body(group));
    EmptyGroup(b[next]);
    assert b[next + 1..next + 1] == [];
  }

  lemma JoinGroup(b: seq<nat>, flagsAt: nat, next: nat, front: seq<nat>, body: seq<nat>)
    requires flagsAt < next <= |b| && b[..flagsAt] == front && b[flagsAt + 1..next] == body
    ensures b[..next] == front + ([b[flagsAt]] + body)
  {
  }

  lemma EmptyGroup(x: nat)
    ensures Body([]) == [] && FlagsOf([]) == 0 && (x < 256 ==> x / Pow2(8) == 0)
  {
    Pow2Table();
  }

  lemma {:induction false} LayoutGroup(full: seq<Token>, group: seq<Token>)
    requires AllCodable(full) && AllCodable(group) && |full| % 8 == 0 && 1 <= |group| <= 8
    ensures Layout(full + group) == Layout(full) + Group(group)
  {
    hide Group, Codable;
    var all := full + group;
    assert LastGroup(|all|) == |group|;
    assert all[..|full|] == full && all[|full|..] == group;
  }

  /** The symbol counts of a block. */
  ghost predicate TokensCounted(mainCount: seq<nat>, distCount: seq<nat>, tokens: seq<Token>) {
    && |mainCount| == 288 && |distCount| == 32 && AllCodable(tokens)
    && Sum(mainCount) == |tokens| && Sum(distCount) <= |tokens|
    && (forall sym :: 0 <= sym < 288 ==> mainCount[sym] == MainCount(tokens, sym))
    && (forall sym :: 0 <= sym < 32 ==> distCount[sym] == DistCount(tokens, sym))
  }

  function CountedMain(mainCount: seq<nat>, t: Token): (r: seq<nat>)
    requires Codable(t) && |mainCount| == 288
  {
    var sym := MainSymbol(t);
    mainCount[sym := mainCount[sym] + 1]
  }

  function CountedDist(distCount: seq<nat>, t: Token): (r: seq<nat>)
    requires Codable(t) && |distCount| == 32
  {
    if t.Match? then
      var sym := DistSymbol(t.dist - 1);
      distCount[sym := distCount[sym] + 1]
    else distCount
  }

  lemma CountedMore(mainCount: seq<nat>, distCount: seq<nat>, tokens: seq<Token>, t: Token)
    requires TokensCounted(mainCount, distCount, tokens) && Codable(t)
    ensures TokensCounted(CountedMain(mainCount, t), CountedDist(distCount, t), tokens + [t])
  {
    hide MainSymbol, DistSymbol, Sum;
    var m := MainSymbol(t);
    SumUpdate(mainCount, m, mainCount[m] + 1);
    if t.Match? {
      var d := DistSymbol(t.dist - 1);
      SumUpdate(distCount, d, distCount[d] + 1);
    }
    forall sym | 0 <= sym < 288 ensures CountedMain(mainCount, t)[sym] == MainCount(tokens + [t], sym) {
      CountsSnoc(tokens, t, sym);
    }
    forall sym | 0 <= sym < 32 ensures CountedDist(distCount, t)[sym] == DistCount(tokens + [t], sym) {
      CountsSnoc(tokens, t, sym);
    }
    CountsSnoc(tokens, t, 0);
  }

  lemma HoldsShape(b: seq<Byte>, next: nat, flagsAt: nat, flagsLeft: nat, full: seq<Token>, cur: seq<Token>)
    requires Holds(b, next, flagsAt, flagsLeft, full, cur)
    ensures |b| == CODE_BUF_SIZE && flagsAt < next <= |b| && 1 <= flagsLeft <= 8
    ensures next >= 1 + |full| + |cur|
  {
  }

  /** Between tokens: after the eighth, a new group has been opened. */
  ghost predicate HoldsNext(b: seq<Byte>, next: nat, flagsAt: nat, left: nat, full: seq<Token>, cur: seq<Token>) {
    if left == 0 then next < |b| && Holds(b, next + 1, next, 8, full + cur, [])
    else Holds(b, next, flagsAt, left, full, cur)
  }

  function WithLiteral(b: seq<Byte>, next: nat, flagsAt: nat, lit: Byte): (r: seq<Byte>)
    requires flagsAt < next < |b|
  {
    b[next := lit][flagsAt := PushFlag(b[flagsAt], false)]
  }

  function WithMatch(b: seq<Byte>, next: nat, flagsAt: nat, len: nat, dist: nat): (r: seq<Byte>)
    requires flagsAt < next && next + 3 <= |b| && Codable(Match(len, dist))
  {
    b[next := len - MIN_MATCH][next + 1 := (dist - 1) % 256][next + 2 := (dist - 1) / 256]
      [flagsAt := PushFlag(b[flagsAt], true)]
  }

  lemma LiteralWritten(b: seq<Byte>, next: nat, flagsAt: nat, flagsLeft: nat, full: seq<Token>, cur: seq<Token>, lit: Byte)
    requires Holds(b, next, flagsAt, flagsLeft, full, cur) && flagsAt < next && next + 2 <= |b|
    ensures HoldsNext(WithLiteral(b, next, flagsAt, lit), next + 1, flagsAt, flagsLeft - 1, full, cur + [Literal(lit)])
  {
    hide Layout, Body, FlagsOf, PushFlag;
    var t, b' := Literal(lit), WithLiteral(b, next, flagsAt, lit);
    assert b'[flagsAt + 1..next + 1] == b[flagsAt + 1..next] + [lit];
    HoldsMore(b, next, flagsAt, flagsLeft, full, cur, t, b', next + 1);
  }

  lemma MatchWritten(b: seq<Byte>, next: nat, flagsAt: nat, flagsLeft: nat, full: seq<Token>, cur: seq<Token>, len: nat, dist: nat)
    requires Holds(b, next, flagsAt, flagsLeft, full, cur) && flagsAt < next && next + 4 <= |b|
    requires Codable(Match(len, dist))
    ensures HoldsNext(WithMatch(b, next, flagsAt, len, dist), next + 3, flagsAt, flagsLeft - 1, full, cur + [Match(len, dist)])
  {
    hide Layout, Body, FlagsOf, PushFlag;
    var t, b' := Match(len, dist), WithMatch(b, next, flagsAt, len, dist);
    assert b'[flagsAt + 1..next + 3] == b[flagsAt + 1..next] + TokenBytes(t);
    HoldsMore(b, next, flagsAt, flagsLeft, full, cur, t, b', next + 3);
  }

  lemma EmptyBuffer(b: seq<Byte>, mainCount: seq<nat>, distCount: seq<nat>)
    requires |b| == CODE_BUF_SIZE && |mainCount| == 288 && |distCount| == 32
    requires (forall k :: 0 <= k < 288 ==> mainCount[k] == 0) && (forall k :: 0 <= k < 32 ==> distCount[k] == 0)
    ensures Holds(b, 1, 0, 8, [], []) && TokensCounted(mainCount, distCount, [] + [])
  {
    SumConstant(mainCount, 0);
    SumConstant(distCount, 0);
    Pow2Table();
  }

  lemma LiteralCounted(mainCount: seq<nat>, distCount: seq<nat>, tokens: seq<Token>, lit: Byte)
    requires TokensCounted(mainCount, distCount, tokens)
    ensures |mainCount| == 288 && TokensCounted(mainCount[lit := mainCount[lit] + 1], distCount, tokens + [Literal(lit)])
  {
    CountedMore(mainCount, distCount, tokens, Literal(lit));
  }

  lemma MatchCounted(mainCount: seq<nat>, distCount: seq<nat>, tokens: seq<Token>, len: nat, dist: nat)
    requires TokensCounted(mainCount, distCount, tokens) && Codable(Match(len, dist))
    ensures |mainCount| == 288 && |distCount| == 32
    ensures var m, d := LengthSymbol(len - MIN_MATCH), DistSymbol(dist - 1);
      TokensCounted(mainCount[m := mainCount[m] + 1], distCount[d := distCount[d] + 1], tokens + [Match(len, dist)])
  {
    hide LengthSymbol, DistSymbol;
    CountedMore(mainCount, distCount, tokens, Match(len, dist));
  }

  // ----- reading back

  /** With the last flag byte shifted down, and dropped if it has no flags, the buffer is the layout of its tokens. */
  lemma Sealed(b: seq<Byte>, next: nat, flagsAt: nat, flagsLeft: nat, full: seq<Token>, cur: seq<Token>)
    requires Holds(b, next, flagsAt, flagsLeft, full, cur) && flagsAt < |b|
    ensures var end := if flagsLeft == 8 then next - 1 else next;
      0 <= end <= |b| && AllCodable(full + cur)
      && b[flagsAt := Shifted(b[flagsAt], flagsLeft)][..end] == Layout(full + cur)
  {
    hide Layout, FlagsOf, Codable, Shifted, Body;
    ShiftedIs(b[flagsAt], flagsLeft);
    var b' := b[flagsAt := Shifted(b[flagsAt], flagsLeft)];
    EmptyGroup(0);
    if cur == [] {
      assert full + cur == full;
      assert b'[..flagsAt] == b[..flagsAt];
    } else {
      assert b'[..flagsAt] == b[..flagsAt] && b'[flagsAt + 1..next] == b[flagsAt + 1..next];
      JoinGroup(b', flagsAt, next, Layout(full), Body(cur));
      LayoutGroup(full, cur);
    }
  }

  /** The group of tokens that starts at `base`. */
  function GroupAt(tokens: seq<Token>, base: nat): (g: seq<Token>)
    requires base <= |tokens|
  {
    if base + 8 <= |tokens| then tokens[base..base + 8] else tokens[base..]
  }

  /** The reader has taken i tokens of the group at `base`; p is where it reads on. */
  ghost predicate MidGroup(tokens: seq<Token>, base: nat, i: nat, flags: nat, p: nat) {
    && AllCodable(tokens) && base < |tokens| && base % 8 == 0 && i <= |GroupAt(tokens, base)|
    && flags == Pow2(8 - i) + FlagsOf(GroupAt(tokens, base)[i..])
    && p == |Layout(tokens[..base])| + 1 + |Body(GroupAt(tokens, base)[..i])|
  }

  lemma {:induction false} LayoutPrefix(tokens: seq<Token>, m: nat)
    requires AllCodable(tokens) && m <= |tokens| && (m % 8 == 0 || m == |tokens|)
    ensures Layout(tokens[..m]) <= Layout(tokens)
  {
    if m < |tokens| {
      var k := |tokens| - LastGroup(|tokens|);
      LayoutPrefix(tokens[..k], m);
      assert tokens[..k][..m] == tokens[..m];
    } else {
      assert tokens[..m] == tokens;
    }
  }

  lemma GroupEnds(tokens: seq<Token>, base: nat)
    requires base < |tokens| && base % 8 == 0
    ensures (base + |GroupAt(tokens, base)|) % 8 == 0 || base + |GroupAt(tokens, base)| == |tokens|
  {
  }

  lemma {:induction false} LayoutAt(tokens: seq<Token>, base: nat)
    requires AllCodable(tokens) && base < |tokens| && base % 8 == 0
    ensures Layout(tokens[..base]) + Group(GroupAt(tokens, base)) <= Layout(tokens)
    ensures Layout(tokens[..base]) + Group(GroupAt(tokens, base)) == Layout(tokens[..base + |GroupAt(tokens, base)|])
  {
    hide Layout, Group, GroupAt, Codable;
    var g := GroupAt(tokens, base);
    GroupWithin(tokens, base);
    LayoutGroup(tokens[..base], g);
    assert tokens[..base] + g == tokens[..base + |g|];
    GroupEnds(tokens, base);
    LayoutPrefix(tokens, base + |g|);
  }

  lemma {:induction false} FlagsSplit(g: seq<Token>)
    requires g != []
    ensures FlagsOf(g) == (if g[0].Match? then 1 else 0) + 2 * FlagsOf(g[1..])
  {
    if |g| == 1 {
      assert g[..0] == [] && g[1..] == [];
    } else {
      var init := g[..|g| - 1];
      FlagsSplit(init);
      assert g[1..][..|g| - 2] == init[1..];
    }
  }

  lemma {:induction false} BodyPrefix(g: seq<Token>, i: nat)
    requires AllCodable(g) && i < |g|
    ensures Body(g[..i]) + TokenBytes(g[i]) == Body(g[..i + 1]) && Body(g[..i + 1]) <= Body(g)
    decreases |g|
  {
    assert g[..i + 1] == g[..i] + [g[i]];
    BodySnoc(g[..i], g[i]);
    if i < |g| - 1 {
      BodyPrefix(g[..|g| - 1], i);
      assert g[..|g| - 1][..i + 1] == g[..i + 1];
    } else {
      assert g[..i + 1] == g;
    }
  }

  lemma OpenGroup(tokens: seq<Token>, base: nat, b: seq<nat>)
    requires AllCodable(tokens) && base < |tokens| && base % 8 == 0 && b == Layout(tokens)
    ensures |Layout(tokens[..base])| < |b|
    ensures var start := |Layout(tokens[..base])|; MidGroup(tokens, base, 0, 256 + b[start], start + 1)
  {
    hide Layout, GroupAt, Codable, FlagsOf, Body, Pow2;
    GroupWithin(tokens, base);
    LayoutAt(tokens, base);
    var g := GroupAt(tokens, base);
    Pow2Table();
    EmptyGroup(0);
    assert g[0..] == g && g[..0] == [];
    assert (Layout(tokens[..base]) + Group(g))[|Layout(tokens[..base])|] == FlagsOf(g);
  }

  lemma NextInGroup(tokens: seq<Token>, base: nat, i: nat, flags: nat, p: nat, b: seq<nat>, next: nat)
    requires MidGroup(tokens, base, i, flags, p) && i < |GroupAt(tokens, base)| && b == Layout(tokens) && next == i + 1
    ensures var t := tokens[base + i];
      && t == GroupAt(tokens, base)[i] && p < |b|
      && p + |TokenBytes(t)| <= |b| && b[p..p + |TokenBytes(t)|] == TokenBytes(t)
      && flags >= 2 && (flags % 2 == 1 <==> t.Match?)
      && MidGroup(tokens, base, next, flags / 2, p + |TokenBytes(t)|)
  {
    hide Layout, Body, FlagsOf, Codable, TokenBytes;
    var g := GroupAt(tokens, base);
    LayoutAt(tokens, base);
    BodyPrefix(g, i);
    FlagsSplit(g[i..]);
    assert g[i..][1..] == g[next..];
    SomeBytes(g[i]);
    BytesInGroup(Layout(tokens[..base]), FlagsOf(g), Body(g[..i]), TokenBytes(g[i]), Body(g), b);
  }

  lemma SomeBytes(t: Token)
    requires Codable(t)
    ensures |TokenBytes(t)| >= 1
  {
  }

  lemma BytesInGroup(front: seq<nat>, flags: nat, before: seq<nat>, bytes: seq<nat>, body: seq<nat>, b: seq<nat>)
    requires before + bytes <= body && front + ([flags] + body) <= b
    ensures var p := |front| + 1 + |before|;
      p + |bytes| <= |b| && b[p..p + |bytes|] == bytes
  {
    var p := |front| + 1 + |before|;
    assert b[..|front| + 1 + |body|] == front + ([flags] + body);
    forall k | 0 <= k < |bytes| ensures b[p + k] == bytes[k] {
      assert (before + bytes)[|before| + k] == body[|before| + k];
      assert (front + ([flags] + body))[p + k] == body[|before| + k];
    }
  }

  lemma GroupDone(tokens: seq<Token>, base: nat, flags: nat, p: nat)
    requires base < |tokens| && MidGroup(tokens, base, |GroupAt(tokens, base)|, flags, p)
    ensures p == |Layout(tokens[..base + |GroupAt(tokens, base)|])|
    ensures flags == 1 <==> |GroupAt(tokens, base)| == 8
    ensures |GroupAt(tokens, base)| < 8 ==> base + |GroupAt(tokens, base)| == |tokens|
    ensures (base + 8) % 8 == 0
  {
    hide Layout;
    var g := GroupAt(tokens, base);
    LayoutAt(tokens, base);
    Pow2Table();
    EmptyGroup(0);
    assert g[..|g|] == g && g[|g|..] == [];
    if |g| < 8 { Pow2Monotone(1, 8 - |g|); }
  }

  /** Where the reader stands after n tokens. */
  ghost predicate Reading(tokens: seq<Token>, n: nat, base: nat, flags: nat, p: nat) {
    && AllCodable(tokens) && n <= |tokens|
    && if flags == 1 then n % 8 == 0 && p == |Layout(tokens[..n])|
       else base <= n && base < |tokens| && n - base <= |GroupAt(tokens, base)| && MidGroup(tokens, base, n - base, flags, p)
  }

  lemma ReadingEnds(tokens: seq<Token>, n: nat, base: nat, flags: nat, p: nat)
    requires Reading(tokens, n, base, flags, p)
    ensures p < |Layout(tokens)| <==> n < |tokens|
  {
    hide Layout, GroupAt, MidGroup;
    if flags == 1 {
      if n < |tokens| { OpenGroup(tokens, n, Layout(tokens)); } else { assert tokens[..n] == tokens; }
    } else if n - base < |GroupAt(tokens, base)| {
      GroupWithin(tokens, base);
      NextInGroup(tokens, base, n - base, flags, p, Layout(tokens), n - base + 1);
    } else {
      GroupWithin(tokens, base);
      GroupDone(tokens, base, flags, p);
      assert tokens[..|tokens|] == tokens;
    }
  }

  lemma GroupWithin(tokens: seq<Token>, base: nat)
    requires base < |tokens|
    ensures 1 <= |GroupAt(tokens, base)| <= 8 && base + |GroupAt(tokens, base)| <= |tokens|
    ensures forall i :: 0 <= i < |GroupAt(tokens, base)| ==> GroupAt(tokens, base)[i] == tokens[base + i]
    ensures AllCodable(tokens) ==> AllCodable(GroupAt(tokens, base))
  {
  }

  lemma ReadingNext(tokens: seq<Token>, n: nat, base: nat, flags: nat, p: nat, b: seq<nat>, next: nat) returns (base': nat)
    requires Reading(tokens, n, base, flags, p) && n < |tokens| && b == Layout(tokens) && next == n + 1
    ensures p < |b|
    ensures var flags', p' := if flags == 1 then 256 + b[p] else flags, if flags == 1 then p + 1 else p;
      var bytes := TokenBytes(tokens[n]);
      && p' + |bytes| <= |b| && b[p'..p' + |bytes|] == bytes && (flags' % 2 == 1 <==> tokens[n].Match?)
      && Reading(tokens, next, base', flags' / 2, p' + |bytes|)
  {
    hide Layout, GroupAt, MidGroup, TokenBytes;
    ReadingEnds(tokens, n, base, flags, p);
    base' := base;
    var flags', p' := flags, p;
    if flags != 1 { GroupWithin(tokens, base); }
    if flags == 1 {
      OpenGroup(tokens, n, b);
      base', flags', p' := n, 256 + b[p], p + 1;
    } else if n - base == |GroupAt(tokens, base)| {
      GroupDone(tokens, base, flags, p);
    }
    GroupWithin(tokens, base');
    NextInGroup(tokens, base', n - base', flags', p', b, next - base');
    p' := p' + |TokenBytes(tokens[n])|;
    if next - base' == |GroupAt(tokens, base')| {
      GroupDone(tokens, base', flags' / 2, p');
    } else {
      NextInGroup(tokens, base', next - base', flags' / 2, p', b, next - base' + 1);
    }
  }

  lemma ReadingStarts(tokens: seq<Token>)
    requires AllCodable(tokens)
    ensures Reading(tokens, 0, 0, 1, 0)
  {
    assert tokens[..0] == [];
  }

  lemma TokenFromBytes(t: Token)
    requires Codable(t)
    ensures var r := TokenBytes(t);
      if t.Match? then |r| == 3 && t == Match(r[0] + MIN_MATCH, r[1] + 256 * r[2] + 1) else r == [t.byte]
  {
  }

  lemma SliceAt(b: seq<nat>, p: nat, bytes: seq<nat>)
    requires p + |bytes| <= |b| && b[p..p + |bytes|] == bytes
    ensures forall k {:trigger b[p + k]} :: 0 <= k < |bytes| ==> b[p + k] == bytes[k]
    ensures |bytes| >= 1 ==> b[p] == bytes[0]
  {
    forall k | 0 <= k < |bytes| ensures b[p + k] == bytes[k] { assert b[p..p + |bytes|][k] == b[p + k]; }
  }

  // ----- the buffer

  class CodeBuffer {
    const buf: array<Byte>
    const mainCount: array<nat>
    const distCount: array<nat>
    /** Where the next code, the current flag byte go; how many flags that byte still takes. */
    var next: nat
    var flagsAt: nat
    var flagsLeft: nat
    ghost var full: seq<Token>
    ghost var cur: seq<Token>

    ghost predicate Valid()
      reads this, buf, mainCount, distCount
    {
      && mainCount != distCount
      && Holds(buf[..], next, flagsAt, flagsLeft, full, cur)
      && TokensCounted(mainCount[..], distCount[..], full + cur)
    }

    /** The tokens recorded since the last flush. */
    ghost function Tokens(): (r: seq<Token>)
      reads this
    {
      full + cur
    }

    constructor ()
      ensures Valid() && Tokens() == [] && next == 1
      ensures fresh(buf) && fresh(mainCount) && fresh(distCount)
    {
      buf := new Byte[CODE_BUF_SIZE](_ => 0);
      mainCount := new nat[288](_ => 0);
      distCount := new nat[32](_ => 0);
      next, flagsAt, flagsLeft, full, cur := 1, 0, 8, [], [];
      new;
      EmptyBuffer(buf[..], mainCount[..], distCount[..]);
    }

    /** One flag fewer is free; after the eighth token a new flag byte is set aside. */
    method CountFlag(ghost t: Token)
      requires flagsLeft >= 1 && HoldsNext(buf[..], next, flagsAt, flagsLeft - 1, full, cur + [t])
      modifies this`next, this`flagsAt, this`flagsLeft, this`full, this`cur
      ensures Holds(buf[..], next, flagsAt, flagsLeft, full, cur) && full + cur == old(full + cur) + [t]
      ensures old(next) <= next <= old(next) + 1
    {
      hide Holds;
      ghost var f, c := full, cur;
      flagsLeft := flagsLeft - 1;
      cur := c + [t];
      if flagsLeft == 0 {
        flagsLeft := 8;
        flagsAt := next;
        next := next + 1;
        full, cur := f + (c + [t]), [];
      }
      assert full + cur == f + c + [t];
    }

    method RecordLiteral(lit: Byte)
      requires Valid() && next + 2 <= CODE_BUF_SIZE
      modifies this`next, this`flagsAt, this`flagsLeft, this`full, this`cur, buf, mainCount
      ensures Valid() && Tokens() == old(Tokens()) + [Literal(lit)]
      ensures old(next) < next <= old(next) + 2
    {
      hide Holds, HoldsNext, TokensCounted, PushFlag, Codable, CountedMain, CountedDist;
      ghost var b, mc, dc, was := buf[..], mainCount[..], distCount[..], next;
      HoldsShape(b, next, flagsAt, flagsLeft, full, cur);
      LiteralCounted(mc, dc, full + cur, lit);
      LiteralWritten(b, next, flagsAt, flagsLeft, full, cur, lit);
      buf[next] := lit;
      next := next + 1;
      buf[flagsAt] := PushFlag(buf[flagsAt], false);
      assert buf[..] == WithLiteral(b, was, flagsAt, lit);
      CountFlag(Literal(lit));
      mainCount[lit] := mainCount[lit] + 1;
      assert mainCount[..] == mc[lit := mc[lit] + 1] && distCount[..] == dc;
      HoldsShape(buf[..], next, flagsAt, flagsLeft, full, cur);
    }

    method RecordMatch(len: nat, dist: nat)
      requires Valid() && next + 4 <= CODE_BUF_SIZE && Codable(Match(len, dist))
      modifies this`next, this`flagsAt, this`flagsLeft, this`full, this`cur, buf, mainCount, distCount
      ensures Valid() && Tokens() == old(Tokens()) + [Match(len, dist)]
      ensures old(next) < next <= old(next) + 4
    {
      hide Holds, HoldsNext, TokensCounted, PushFlag, CountedMain, CountedDist, LengthSymbol, DistSymbol;
      ghost var b, mc, dc, was := buf[..], mainCount[..], distCount[..], next;
      HoldsShape(b, next, flagsAt, flagsLeft, full, cur);
      MatchCounted(mc, dc, full + cur, len, dist);
      MatchWritten(b, next, flagsAt, flagsLeft, full, cur, len, dist);
      var d := dist - 1;
      buf[next] := len - MIN_MATCH;
      buf[next + 1] := d % 256;
      buf[next + 2] := d / 256;
      next := next + 3;
      buf[flagsAt] := PushFlag(buf[flagsAt], true);
      assert buf[..] == WithMatch(b, was, flagsAt, len, dist);
      CountFlag(Match(len, dist));
      var distSym, mainSym := DistSymbol(d), LengthSymbol(len - MIN_MATCH);
      distCount[distSym] := distCount[distSym] + 1;
      mainCount[mainSym] := mainCount[mainSym] + 1;
      assert mainCount[..] == mc[mainSym := mc[mainSym] + 1];
      assert distCount[..] == dc[distSym := dc[distSym] + 1];
      HoldsShape(buf[..], next, flagsAt, flagsLeft, full, cur);
    }

    /** The buffer's size bounds a block's tokens: with the end-of-block symbol the counts stay below 2^16. */
    lemma CountsFit()
      requires Valid() && next <= CODE_BUF_SIZE - 2
      ensures |Tokens()| + 1 < 65536 && AllCodable(Tokens())
      ensures buf.Length == CODE_BUF_SIZE && mainCount.Length == 288 && distCount.Length == 32 && mainCount != distCount
      ensures Sum(mainCount[..]) + 1 < 65536 && Sum(distCount[..]) < 65536 && mainCount[256] == 0
      ensures mainCount[286] == mainCount[287] == 0 && distCount[30] == distCount[31] == 0
      ensures TokensCounted(mainCount[..], distCount[..], Tokens())
    {
      HoldsShape(buf[..], next, flagsAt, flagsLeft, full, cur);
      LastSymbolsUnused(full + cur, 256);
      LastSymbolsUnused(full + cur, 286);
      LastSymbolsUnused(full + cur, 287);
      LastSymbolsUnused(full + cur, 30);
      LastSymbolsUnused(full + cur, 31);
    }

    /** Ends the block: the last flag byte is shifted down, and dropped if it has no flags. */
    method Seal()
      requires Valid()
      modifies this`next, buf
      ensures next <= CODE_BUF_SIZE == buf.Length && AllCodable(Tokens()) && buf[..next] == Layout(Tokens())
      ensures Tokens() == old(Tokens())
      ensures next <= old(next)
    {
      hide Holds, TokensCounted, Shifted, Layout;
      ghost var b := buf[..];
      HoldsShape(b, next, flagsAt, flagsLeft, full, cur);
      Sealed(b, next, flagsAt, flagsLeft, full, cur);
      buf[flagsAt] := Shifted(buf[flagsAt], flagsLeft);
      assert buf[..] == b[flagsAt := Shifted(b[flagsAt], flagsLeft)];
      if flagsLeft == 8 { next := next - 1; }
      assert buf[..next] == buf[..][..next];
    }

    /** Reads the tokens of a sealed buffer in order, as the block coder does. */
    method ReadTokens(ghost tokens: seq<Token>) returns (out: seq<Token>)
      requires AllCodable(tokens) && next <= buf.Length && buf[..next] == Layout(tokens)
      ensures out == tokens
    {
      hide Layout, Reading, TokenBytes;
      ghost var b := buf[..next];
      var flags: nat, p := 1, 0;
      ghost var base := 0;
      out := [];
      ReadingStarts(tokens);
      while p < next
        invariant |out| <= |tokens| && out == tokens[..|out|]
        invariant Reading(tokens, |out|, base, flags, p)
        decreases |tokens| - |out|
      {
        ReadingEnds(tokens, |out|, base, flags, p);
        ghost var t := tokens[|out|];
        base := ReadingNext(tokens, |out|, base, flags, p, b, |out| + 1);
        TokenFromBytes(t);
        if flags == 1 {
          var group: nat := buf[p];
          flags := 256 + group;
          p := p + 1;
        }
        SliceAt(b, p, TokenBytes(t));
        if flags % 2 == 1 {
          var len: nat, low: nat, high: nat := buf[p], buf[p + 1], buf[p + 2];
          p := p + 3;
          out := out + [Match(len + MIN_MATCH, low + 256 * high + 1)];
        } else {
          out := out + [Literal(buf[p])];
          p := p + 1;
        }
        flags := flags / 2;
      }
      ReadingEnds(tokens, |out|, base, flags, p);
    }

    /** Empties the buffer for the next block. */
    method Reset()
      requires buf.Length == CODE_BUF_SIZE && mainCount.Length == 288 && distCount.Length == 32 && mainCount != distCount
      modifies this, mainCount, distCount
      ensures Valid() && Tokens() == [] && next == 1
    {
      for i := 0 to 288
        modifies mainCount
        invariant forall k :: 0 <= k < i ==> mainCount[k] == 0
      {
        mainCount[i] := 0;
      }
      for i := 0 to 32
        modifies distCount
        invariant forall k :: 0 <= k < i ==> distCount[k] == 0
      {
        distCount[i] := 0;
      }
      next, flagsAt, flagsLeft, full, cur := 1, 0, 8, [], [];
      EmptyBuffer(buf[..], mainCount[..], distCount[..]);
    }
  }
}
