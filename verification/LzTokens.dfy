/** LZ77 tokens, what they expand to, and the symbols (section 3.2.5 of RFC 1951) they are coded by. */
module LzTokens {
  import opened Wrappers

  const MIN_MATCH: nat := 3
  const MAX_MATCH: nat := 258
  const DICT_SIZE: nat := 32768

  datatype Token = Literal(byte: nat) | Match(len: nat, dist: nat)

  /** Appends len bytes, each a copy of the one `dist` back: the copy may run into what it writes. */
  function CopyBack(out: seq<nat>, dist: nat, len: nat): (r: seq<nat>)
    requires 1 <= dist <= |out|
    ensures |r| == |out| + len && out <= r
    decreases len
  {
    if len == 0 then out else CopyBack(out + [out[|out| - dist]], dist, len - 1)
  }

  function Apply(out: seq<nat>, t: Token): Option<seq<nat>> {
    match t
    case Literal(b) => Some(out + [b])
    case Match(len, dist) => if 1 <= dist <= |out| then Some(CopyBack(out, dist, len)) else None
  }

  /** What a decompressor that has put out `out` has after these tokens, unless a distance reaches too far back. */
  function ExpandFrom(out: seq<nat>, tokens: seq<Token>): Option<seq<nat>> {
    if tokens == [] then Some(out)
    else
      match ExpandFrom(out, tokens[..|tokens| - 1])
      case None => None
      case Some(sofar) => Apply(sofar, tokens[|tokens| - 1])
  }

  lemma {:induction false} ExpandSnoc(out: seq<nat>, tokens: seq<Token>, t: Token)
    requires ExpandFrom(out, tokens).Some?
    ensures ExpandFrom(out, tokens + [t]) == Apply(ExpandFrom(out, tokens).value, t)
  {
    assert (tokens + [t])[..|tokens|] == tokens;
  }

  /** Every token adds at most MAX_MATCH bytes to the end. */
  lemma {:induction false} ExpandGrows(out: seq<nat>, tokens: seq<Token>)
    requires ExpandFrom(out, tokens).Some? && AllCodable(tokens)
    ensures out <= ExpandFrom(out, tokens).value
    ensures |ExpandFrom(out, tokens).value| <= |out| + MAX_MATCH * |tokens|
  {
    if tokens != [] {
      ExpandGrows(out, tokens[..|tokens| - 1]);
      assert Codable(tokens[|tokens| - 1]);
    }
  }

  /** `len` bytes of h from `at` on repeat those `dist` before. */
  ghost predicate Matches(h: seq<nat>, at: nat, dist: nat, len: nat) {
    && 1 <= dist <= at && at + len <= |h|
    && forall i :: at <= i < at + len ==> Repeats(h, dist, i)
  }

  ghost predicate Repeats(h: seq<nat>, dist: nat, i: nat)
    requires dist <= i < |h|
  {
    h[i] == h[i - dist]
  }

  lemma {:induction false} CopyOfMatch(h: seq<nat>, at: nat, dist: nat, len: nat)
    requires Matches(h, at, dist, len)
    ensures CopyBack(h[..at], dist, len) == h[..at + len]
    decreases len
  {
    if len > 0 {
      assert Repeats(h, dist, at);
      assert h[..at] + [h[..at][at - dist]] == h[..at + 1];
      CopyOfMatch(h, at + 1, dist, len - 1);
    }
  }

  /** Recording a match of what comes next in h, which reaches back no further than `floor`. */
  lemma ExpandMatch(h: seq<nat>, floor: nat, start: nat, tokens: seq<Token>, at: nat, dist: nat, len: nat)
    requires floor <= start <= |h| && floor + dist <= at && Matches(h, at, dist, len)
    requires ExpandFrom(h[floor..start], tokens) == Some(h[floor..at])
    ensures ExpandFrom(h[floor..start], tokens + [Match(len, dist)]) == Some(h[floor..at + len])
  {
    var g := h[floor..];
    ExpandSnoc(h[floor..start], tokens, Match(len, dist));
    forall i | at - floor <= i < at - floor + len ensures Repeats(g, dist, i) { assert Repeats(h, dist, floor + i); }
    CopyOfMatch(g, at - floor, dist, len);
    assert g[..at - floor] == h[floor..at] && g[..at - floor + len] == h[floor..at + len];
  }

  lemma ExpandLiteral(h: seq<nat>, floor: nat, start: nat, tokens: seq<Token>, at: nat)
    requires floor <= start <= |h| && floor <= at < |h|
    requires ExpandFrom(h[floor..start], tokens) == Some(h[floor..at])
    ensures ExpandFrom(h[floor..start], tokens + [Literal(h[at])]) == Some(h[floor..at + 1])
  {
    ExpandSnoc(h[floor..start], tokens, Literal(h[at]));
    assert h[floor..at] + [h[at]] == h[floor..at + 1];
  }

  lemma {:induction false} CopyBackBehind(pre: seq<nat>, out: seq<nat>, dist: nat, len: nat)
    requires 1 <= dist <= |out|
    ensures CopyBack(pre + out, dist, len) == pre + CopyBack(out, dist, len)
    decreases len
  {
    if len > 0 {
      var next := out + [out[|out| - dist]];
      assert (pre + out) + [(pre + out)[|pre + out| - dist]] == pre + next;
      CopyBackBehind(pre, next, dist, len - 1);
    }
  }

  /** Tokens that expand by themselves expand the same way behind earlier output. */
  lemma {:induction false} ExpandBehind(pre: seq<nat>, out: seq<nat>, tokens: seq<Token>)
    requires ExpandFrom(out, tokens).Some?
    ensures ExpandFrom(pre + out, tokens) == Some(pre + ExpandFrom(out, tokens).value)
  {
    if tokens != [] {
      var init, t := tokens[..|tokens| - 1], tokens[|tokens| - 1];
      ExpandBehind(pre, out, init);
      var sofar := ExpandFrom(out, init).value;
      match t
      case Literal(b) => assert (pre + sofar) + [b] == pre + (sofar + [b]);
      case Match(len, dist) => CopyBackBehind(pre, sofar, dist, len);
    }
  }

  lemma MatchesMore(h: seq<nat>, more: seq<nat>, at: nat, dist: nat, len: nat)
    requires Matches(h, at, dist, len)
    ensures Matches(h + more, at, dist, len)
  {
    forall i | at <= i < at + len ensures Repeats(h + more, dist, i) { assert Repeats(h, dist, i); }
  }

  /** A token the format can carry. */
  predicate Codable(t: Token) {
    match t
    case Literal(b) => b < 256
    case Match(len, dist) => MIN_MATCH <= len <= MAX_MATCH && 1 <= dist <= DICT_SIZE
  }

  predicate AllCodable(tokens: seq<Token>) {
    forall i :: 0 <= i < |tokens| ==> Codable(tokens[i])
  }

  // ----- symbols

  /** Extra bits of a match length, given less 3. */
  function LengthExtra(l: nat): (e: nat)
    ensures e <= 5
  {
    if l < 8 || l == 255 then 0 else if l < 16 then 1 else if l < 32 then 2
    else if l < 64 then 3 else if l < 128 then 4 else 5
  }

  function LengthSymbol(l: nat): (sym: nat)
    requires l < 256
    ensures 257 <= sym <= 285
  {
    if l == 255 then 285
    else if l < 8 then 257 + l
    else if l < 16 then 261 + l / 2
    else if l < 32 then 265 + l / 4
    else if l < 64 then 269 + l / 8
    else if l < 128 then 273 + l / 16
    else 277 + l / 32
  }

  /** Extra bits of a match distance, given less 1. */
  function DistExtra(d: nat): (e: nat)
    ensures e <= 13
  {
    if d < 4 then 0 else if d < 8 then 1 else if d < 16 then 2 else if d < 32 then 3 else if d < 64 then 4
    else if d < 128 then 5 else if d < 256 then 6 else if d < 512 then 7 else if d < 1024 then 8
    else if d < 2048 then 9 else if d < 4096 then 10 else if d < 8192 then 11 else if d < 16384 then 12 else 13
  }

  function DistSymbol(d: nat): (sym: nat)
    requires d < 32768
    ensures sym <= 29
  {
    if d < 4 then d else if d < 8 then 2 + d / 2 else if d < 16 then 4 + d / 4 else if d < 32 then 6 + d / 8
    else if d < 64 then 8 + d / 16 else if d < 128 then 10 + d / 32 else if d < 256 then 12 + d / 64
    else if d < 512 then 14 + d / 128 else if d < 1024 then 16 + d / 256 else if d < 2048 then 18 + d / 512
    else if d < 4096 then 20 + d / 1024 else if d < 8192 then 22 + d / 2048 else if d < 16384 then 24 + d / 4096
    else 26 + d / 8192
  }

  /** The literal or length symbol of a token. */
  function MainSymbol(t: Token): (sym: nat)
    requires Codable(t)
    ensures sym <= 285 && sym != 256
  {
    match t
    case Literal(b) => b
    case Match(len, _) => LengthSymbol(len - MIN_MATCH)
  }

  /** How many tokens use a literal or length symbol. */
  function MainCount(tokens: seq<Token>, sym: nat): (r: nat)
    requires AllCodable(tokens)
    ensures r <= |tokens|
  {
    if tokens == [] then 0
    else MainCount(tokens[..|tokens| - 1], sym) + if MainSymbol(tokens[|tokens| - 1]) == sym then 1 else 0
  }

  /** How many matches use a distance symbol. */
  function DistCount(tokens: seq<Token>, sym: nat): (r: nat)
    requires AllCodable(tokens)
    ensures r <= |tokens|
  {
    if tokens == [] then 0
    else
      var t := tokens[|tokens| - 1];
      DistCount(tokens[..|tokens| - 1], sym) + if t.Match? && DistSymbol(t.dist - 1) == sym then 1 else 0
  }

  lemma {:induction false} CountsSnoc(tokens: seq<Token>, t: Token, sym: nat)
    requires AllCodable(tokens) && Codable(t)
    ensures AllCodable(tokens + [t])
    ensures MainCount(tokens + [t], sym) == MainCount(tokens, sym) + if MainSymbol(t) == sym then 1 else 0
    ensures DistCount(tokens + [t], sym) ==
      DistCount(tokens, sym) + if t.Match? && DistSymbol(t.dist - 1) == sym then 1 else 0
  {
    assert (tokens + [t])[..|tokens|] == tokens;
  }

  /** Symbols that no token has are not counted. */
  lemma {:induction false} LastSymbolsUnused(tokens: seq<Token>, sym: nat)
    requires AllCodable(tokens)
    ensures sym >= 286 || sym == 256 ==> MainCount(tokens, sym) == 0
    ensures sym >= 30 ==> DistCount(tokens, sym) == 0
  {
    if tokens != [] { LastSymbolsUnused(tokens[..|tokens| - 1], sym); }
  }

  /** Every token that occurs is counted. */
  lemma {:induction false} OccurringIsCounted(tokens: seq<Token>, k: nat)
    requires AllCodable(tokens) && k < |tokens|
    ensures MainCount(tokens, MainSymbol(tokens[k])) > 0
    ensures tokens[k].Match? ==> DistCount(tokens, DistSymbol(tokens[k].dist - 1)) > 0
  {
    if k < |tokens| - 1 { OccurringIsCounted(tokens[..|tokens| - 1], k); }
  }
}
