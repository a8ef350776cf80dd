/** Escaped text in ini files, and how a line is taken apart again. */
module IniText {
  import opened Sequences
  import opened Wrappers

  // ----- escaping

  function EscapeChar(c: char): (r: string)
    ensures 1 <= |r| <= 2
  {
    if c == '\r' then "\\r"
    else if c == '\n' then "\\n"
    else if c in "\\=[];#" then ['\\', c]
    else [c]
  }

  function Escape(s: string): (r: string)
    ensures |r| >= |s|
  {
    if s == [] then [] else Escape(s[..|s| - 1]) + EscapeChar(s[|s| - 1])
  }

  /** What a backslash and the character behind it stand for. */
  function Unescaped(c: char): char {
    if c == 'r' then '\r' else if c == 'n' then '\n' else c
  }

  /** A backslash at the end is dropped. */
  function Unescape(s: string): (r: string)
    ensures |r| <= |s|
  {
    if s == [] then []
    else if s[0] != '\\' then [s[0]] + Unescape(s[1..])
    else if |s| > 1 then [Unescaped(s[1])] + Unescape(s[2..])
    else []
  }

  lemma EscapeSnoc(s: string, c: char)
    ensures Escape(s + [c]) == Escape(s) + EscapeChar(c)
  {
    assert (s + [c])[..|s|] == s;
  }

  lemma {:induction false} EscapeAppend(a: string, b: string)
    ensures Escape(a + b) == Escape(a) + Escape(b)
  {
    hide Escape, EscapeChar;
    EscapeNothing();
    if b == [] {
      assert a + b == a;
      assert Escape(a) + [] == Escape(a);
    } else {
      var init, c := b[..|b| - 1], b[|b| - 1];
      EscapeAppend(a, init);
      assert b == init + [c] && a + b == (a + init) + [c];
      EscapeSnoc(init, c);
      EscapeSnoc(a + init, c);
    }
  }

  lemma EscapeNothing()
    ensures Escape([]) == []
  {
  }

  /** Escaping part by part around one character. */
  lemma EscapeAround(s: string, k: nat)
    requires k < |s|
    ensures Escape(s) == Escape(s[..k]) + (EscapeChar(s[k]) + Escape(s[k + 1..]))
  {
    hide *;
    EscapeThree(s[..k], s[k], s[k + 1..]);
    SplitAround(s, k);
  }

  lemma EscapeThree(a: string, c: char, b: string)
    ensures Escape((a + [c]) + b) == Escape(a) + (EscapeChar(c) + Escape(b))
  {
    hide *;
    EscapeAppend(a + [c], b);
    EscapeSnoc(a, c);
    JoinThree(Escape(a), EscapeChar(c), Escape(b));
  }

  lemma SplitAround(s: string, k: nat)
    requires k < |s|
    ensures s == (s[..k] + [s[k]]) + s[k + 1..]
  {
  }

  lemma UnescapeChar(c: char, rest: string)
    ensures Unescape(EscapeChar(c) + rest) == [c] + Unescape(rest)
  {
    var e := EscapeChar(c) + rest;
    if |EscapeChar(c)| == 2 {
      assert e[2..] == rest;
    } else {
      assert e[1..] == rest;
    }
  }

  lemma UnescapeNothing()
    ensures Unescape([]) == []
  {
  }

  /** Unescaping undoes escaping. */
  lemma {:induction false} UnescapeOfEscape(s: string)
    ensures Unescape(Escape(s)) == s
  {
    hide Escape, EscapeChar, Unescape;
    EscapeNothing();
    if s != [] {
      EscapeAround(s, 0);
      assert s[..0] == [];
      assert Escape(s) == EscapeChar(s[0]) + Escape(s[1..]);
      UnescapeChar(s[0], Escape(s[1..]));
      UnescapeOfEscape(s[1..]);
      assert s == [s[0]] + s[1..];
    } else {
      UnescapeNothing();
    }
  }

  /** Escaped text stays on its line. */
  lemma {:induction false} EscapeHasNoNewline(s: string)
    ensures '\n' !in Escape(s)
  {
    if s != [] { EscapeHasNoNewline(s[..|s| - 1]); }
  }

  method EscapeText(input: string) returns (result: string)
    ensures result == Escape(input)
  {
    result := [];
    for i := 0 to |input|
      invariant result == Escape(input[..i])
    {
      result := result + EscapeChar(input[i]);
      assert input[..i + 1] == input[..i] + [input[i]];
      EscapeSnoc(input[..i], input[i]);
    }
    assert input[..|input|] == input;
  }

  lemma UnescapeFrom(input: string, i: nat)
    requires i < |input|
    ensures Unescape(input[i..]) == if input[i] != '\\' then [input[i]] + Unescape(input[i + 1..])
      else if i + 1 < |input| then [Unescaped(input[i + 1])] + Unescape(input[i + 2..])
      else []
  {
    var rest := input[i..];
    assert rest[0] == input[i];
    assert rest[1..] == input[i + 1..];
    if i + 1 < |input| {
      assert rest[1] == input[i + 1];
      assert rest[2..] == input[i + 2..];
    }
  }

  method UnescapeText(input: string) returns (result: string)
    ensures result == Unescape(input)
  {
    hide Unescape, Unescaped;
    result := [];
    var i := 0;
    UnescapeNothing();
    assert input[0..] == input;
    while i < |input|
      invariant i <= |input| && result + Unescape(input[i..]) == Unescape(input)
    {
      UnescapeFrom(input, i);
      if input[i] != '\\' {
        JoinThree(result, [input[i]], Unescape(input[i + 1..]));
        result := result + [input[i]];
        i := i + 1;
      } else if i + 1 < |input| {
        JoinThree(result, [Unescaped(input[i + 1])], Unescape(input[i + 2..]));
        result := result + [Unescaped(input[i + 1])];
        i := i + 2;
      } else {
        break;
      }
    }
  }

  // ----- separators

  /** Backslashes before position i, but index 0 is never looked at. */
  function Run(line: string, i: nat): (n: nat)
    requires i <= |line|
  {
    if i > 1 && line[i - 1] == '\\' then 1 + Run(line, i - 1) else 0
  }

  predicate IsEscaped(line: string, i: nat)
    requires i <= |line|
  {
    Run(line, i) % 2 == 1
  }

  method CheckEscaped(line: string, offset: nat) returns (escaped: bool)
    requires offset <= |line|
    ensures escaped == IsEscaped(line, offset)
  {
    var n, i := 0, offset;
    while i > 1
      invariant 0 <= i <= offset && n + Run(line, i) == Run(line, offset)
    {
      if line[i - 1] == '\\' { n := n + 1; } else { break; }
      i := i - 1;
    }
    escaped := n % 2 == 1;
  }

  /** The first c from position i on that counts as not escaped. */
  function Find(line: string, c: char, i: nat): (r: Option<nat>)
    requires i <= |line|
    ensures r.Some? ==> i <= r.value < |line| && line[r.value] == c && !IsEscaped(line, r.value)
    decreases |line| - i
  {
    if i == |line| then None
    else if line[i] == c && !IsEscaped(line, i) then Some(i)
    else Find(line, c, i + 1)
  }

  lemma {:induction false} FindIsFirst(line: string, c: char, i: nat, k: nat)
    requires i <= k < |line| && line[k] == c && !IsEscaped(line, k)
    ensures Find(line, c, i).Some? && Find(line, c, i).value <= k
    decreases k - i
  {
    if !(line[i] == c && !IsEscaped(line, i)) { FindIsFirst(line, c, i + 1, k); }
  }

  lemma {:induction false} FindSkips(line: string, c: char, i: nat, k: nat)
    requires i <= k < |line| && line[k] == c && !IsEscaped(line, k)
    requires forall j :: i <= j < k && line[j] == c ==> IsEscaped(line, j)
    ensures Find(line, c, i) == Some(k)
    decreases k - i
  {
    if i < k { FindSkips(line, c, i + 1, k); }
  }

  /** Only what comes before it decides where the separator is. */
  lemma {:induction false} RunOfPrefix(line: string, other: string, i: nat)
    requires i <= |line| && i <= |other| && line[..i] == other[..i]
    ensures Run(line, i) == Run(other, i)
  {
    if i > 1 {
      assert line[i - 1] == line[..i][i - 1] && other[i - 1] == other[..i][i - 1];
      assert line[..i - 1] == line[..i][..i - 1] && other[..i - 1] == other[..i][..i - 1];
      RunOfPrefix(line, other, i - 1);
    }
  }

  lemma {:induction false} FindOfPrefix(line: string, other: string, c: char, i: nat, e: nat)
    requires i <= e < |line| && e < |other| && line[..e + 1] == other[..e + 1] && Find(line, c, i) == Some(e)
    ensures Find(other, c, i) == Some(e)
    decreases e - i
  {
    assert line[i] == line[..e + 1][i] && other[i] == other[..e + 1][i];
    assert line[..i] == line[..e + 1][..i] && other[..i] == other[..e + 1][..i];
    RunOfPrefix(line, other, i);
    if i < e {
      FindOfPrefix(line, other, c, i + 1, e);
    }
  }

  /** The search of the source: the next c, and on as long as it is escaped. */
  method FindUnescaped(line: string, c: char) returns (r: Option<nat>)
    ensures r == Find(line, c, 0)
  {
    var i := 0;
    while i < |line|
      invariant 0 <= i <= |line| && Find(line, c, i) == Find(line, c, 0)
    {
      if line[i] == c {
        var escaped := CheckEscaped(line, i);
        if !escaped { return Some(i); }
      }
      i := i + 1;
    }
    r := None;
  }

  // ----- backslashes at the end of escaped text

  function Trailing(s: string): (n: nat)
    ensures n <= |s|
  {
    if s != [] && s[|s| - 1] == '\\' then 1 + Trailing(s[..|s| - 1]) else 0
  }

  lemma {:induction false} RunIsTrailing(line: string, i: nat)
    requires i <= |line|
    ensures Run(line, i) == if i > 0 && Trailing(line[..i]) == i then i - 1 else Trailing(line[..i])
  {
    if i > 0 {
      assert line[..i][..i - 1] == line[..i - 1];
      RunIsTrailing(line, i - 1);
    }
  }

  lemma {:induction false} TrailingAppend(a: string, b: string)
    ensures Trailing(a + b) == if Trailing(b) == |b| then Trailing(a) + |b| else Trailing(b)
  {
    if b == [] {
      assert a + b == a;
    } else {
      assert (a + b)[..|a + b| - 1] == a + b[..|b| - 1];
      TrailingAppend(a, b[..|b| - 1]);
    }
  }

  /** Escaping doubles the backslashes at the end. */
  lemma {:induction false} TrailingOfEscape(s: string)
    ensures Trailing(Escape(s)) == 2 * Trailing(s)
    ensures Trailing(Escape(s)) == |Escape(s)| <==> Trailing(s) == |s|
  {
    if s != [] {
      var init, c := s[..|s| - 1], s[|s| - 1];
      TrailingOfEscape(init);
      TrailingAppend(Escape(init), EscapeChar(c));
      TrailingOfChar(c);
    }
  }

  lemma TrailingOfChar(c: char)
    ensures Trailing(EscapeChar(c)) == if c == '\\' then 2 else 0
  {
    var e := EscapeChar(c);
    if c == '\\' {
      assert e == ['\\'] + ['\\'] && e[..1] == ['\\'];
    }
  }

  // ----- lines

  /** Where an escaped special character comes from. */
  lemma {:induction false} SpecialAt(s: string, c: char, p: nat) returns (q: nat)
    requires (c == '=' || c == ']') && p < |Escape(s)| && Escape(s)[p] == c
    ensures q < |s| && s[q] == c && p == |Escape(s[..q])| + 1 && Escape(s)[..p] == Escape(s[..q]) + ['\\']
  {
    var init, last := s[..|s| - 1], s[|s| - 1];
    var front := Escape(init);
    if p < |front| {
      q := SpecialAt(init, c, p);
      assert init[..q] == s[..q] && Escape(s)[..p] == front[..p];
    } else {
      q := |s| - 1;
      assert Escape(s)[..p] == front + EscapeChar(last)[..p - |front|];
    }
  }

  /** Backslashes before a special character: escaping put one there, behind those of what is in front. */
  lemma BackslashesBefore(line: string, front: string, p: nat)
    requires p == |Escape(front)| + 1 <= |line| && line[..p] == Escape(front) + ['\\']
    ensures IsEscaped(line, p) <==> Trailing(front) < |front|
  {
    hide Escape, Run, Trailing;
    RunIsTrailing(line, p);
    TrailingOfEscape(front);
    OneBackslashMore(Escape(front));
  }

  lemma OneBackslashMore(s: string)
    ensures Trailing(s + ['\\']) == Trailing(s) + 1
  {
    assert (s + ['\\'])[..|s|] == s;
  }

  /** The line of an entry, as it is printed. */
  function EntryLine(key: string, escaped: string): (line: string)
  {
    Escape(key) + "=" + escaped
  }

  datatype Entry = Entry(key: string, separator: nat)

  /** An entry line taken apart at the first '=' that does not count as escaped. */
  function ParseEntry(line: string): Option<Entry> {
    match Find(line, '=', 0)
    case None => None
    case Some(e) => Some(Entry(Unescape(line[..e]), e))
  }

  function Leading(s: string): (n: nat)
    ensures n <= |s| && (n < |s| ==> s[n] != '\\') && forall i :: 0 <= i < n ==> s[i] == '\\'
  {
    if s != [] && s[0] == '\\' then 1 + Leading(s[1..]) else 0
  }

  /** The keys that come back: behind the leading backslashes there is no '=', and if there are any, more follows. */
  predicate GoodKey(key: string) {
    var k := Leading(key);
    if k == |key| then k == 0 else key[k] != '='
  }

  lemma {:induction false} TrailingAll(s: string)
    ensures Trailing(s) == |s| <==> forall i :: 0 <= i < |s| ==> s[i] == '\\'
  {
    if s != [] {
      var init := s[..|s| - 1];
      TrailingAll(init);
      assert forall i :: 0 <= i < |init| ==> init[i] == s[i];
    }
  }

  /** Is the separator of a key's own line found to be escaped? */
  lemma SeparatorEscaped(key: string, escaped: string)
    ensures IsEscaped(EntryLine(key, escaped), |Escape(key)|) <==> key != [] && Leading(key) == |key|
  {
    hide Escape, Run, Trailing, Leading;
    var line := EntryLine(key, escaped);
    assert line[..|Escape(key)|] == Escape(key);
    RunIsTrailing(line, |Escape(key)|);
    TrailingOfEscape(key);
    TrailingAll(key);
  }

  lemma EqualsInKey(key: string, escaped: string, p: nat)
    requires p < |Escape(key)| && EntryLine(key, escaped)[p] == '=' && GoodKey(key)
    ensures IsEscaped(EntryLine(key, escaped), p)
  {
    var line := EntryLine(key, escaped);
    assert line[p] == Escape(key)[p];
    var q := SpecialAt(key, '=', p);
    assert line[..p] == Escape(key)[..p];
    BackslashesBefore(line, key[..q], p);
    TrailingAll(key[..q]);
    LeadingIs(key, q);
  }

  lemma LeadingIs(key: string, q: nat)
    requires q < |key| && key[q] == '='
    ensures Trailing(key[..q]) == q ==> Leading(key) == q
  {
    TrailingAll(key[..q]);
    if Trailing(key[..q]) == q {
      var k := Leading(key);
      assert forall i :: 0 <= i < q ==> key[i] == key[..q][i] == '\\';
      assert k == |key| || key[k] != '\\';
    }
  }

  /** A key comes back from its line exactly if it is good, whatever the value is. */
  lemma KeyComesBack(key: string, escaped: string)
    ensures ParseEntry(EntryLine(key, escaped)) == Some(Entry(key, |Escape(key)|)) <==> GoodKey(key)
  {
    var line, n, k := EntryLine(key, escaped), |Escape(key)|, Leading(key);
    SeparatorEscaped(key, escaped);
    assert line[n] == '=';
    if GoodKey(key) {
      forall j | 0 <= j < n && line[j] == '=' ensures IsEscaped(line, j) { EqualsInKey(key, escaped, j); }
      FindSkips(line, '=', 0, n);
      assert line[..n] == Escape(key);
      UnescapeOfEscape(key);
    } else if k < |key| {
      EqualsSplits(key, escaped);
    }
  }

  lemma AroundEquals(line: string, front: string, tail: string, escaped: string)
    requires line == front + (EscapeChar('=') + tail) + "=" + escaped
    ensures |front| + 1 < |line| && line[..|front| + 1] == front + ['\\'] && line[|front| + 1] == '='
  {
    assert EscapeChar('=') == ['\\', '='];
  }

  // ----- the keys that do not come back

  /** Behind the leading backslashes, if any, an '=' comes first. */
  predicate EqualsFirst(key: string) {
    Leading(key) < |key| && key[Leading(key)] == '='
  }

  predicate OnlyBackslashes(key: string) {
    key != [] && Leading(key) == |key|
  }

  lemma GoodOrNot(key: string)
    ensures GoodKey(key) <==> !EqualsFirst(key) && !OnlyBackslashes(key)
  {
  }

  /** Every '=' is behind an odd number of backslashes. */
  predicate Sealed(e: string) {
    forall j :: 0 <= j < |e| && e[j] == '=' ==> OddBackslashes(e, j)
  }

  predicate OddBackslashes(e: string, j: nat)
    requires j <= |e|
  {
    Trailing(e[..j]) % 2 == 1
  }

  lemma EscapeIsSealed(s: string)
    ensures Sealed(Escape(s))
  {
    hide Escape, Trailing;
    forall p: nat | p < |Escape(s)| && Escape(s)[p] == '=' ensures OddBackslashes(Escape(s), p) {
      var q := SpecialAt(s, '=', p);
      TrailingOfEscape(s[..q]);
      OneBackslashMore(Escape(s[..q]));
    }
  }

  /** Text that escaping has made. */
  predicate Proper(e: string) {
    e == Escape(Unescape(e))
  }

  lemma ProperText(e: string)
    requires Proper(e)
    ensures '\n' !in e && Sealed(e)
  {
    hide Sealed;
    EscapeHasNoNewline(Unescape(e));
    EscapeIsSealed(Unescape(e));
  }

  lemma {:induction false} FindNone(line: string, c: char, i: nat)
    requires i <= |line| && forall j :: i <= j < |line| && line[j] == c ==> IsEscaped(line, j)
    ensures Find(line, c, i) == None
    decreases |line| - i
  {
    if i < |line| { FindNone(line, c, i + 1); }
  }

  /** Behind the separator the value's own backslashes decide. */
  lemma RunInValue(key: string, escaped: string, j: nat)
    requires j <= |escaped|
    ensures var n := |Escape(key)| + 1; Run(EntryLine(key, escaped), n + j) == Trailing(escaped[..j])
  {
    hide Escape, Trailing, Run;
    var line, front, part := EntryLine(key, escaped), Escape(key) + "=", escaped[..j];
    assert line[..|front| + j] == front + part;
    RunIsTrailing(line, |front| + j);
    TrailingAppend(front, part);
    EndsInEquals(Escape(key));
  }

  lemma EndsInEquals(s: string)
    ensures Trailing(s + "=") == 0
  {
  }

  /** A key of backslashes only hides its separator: with a sealed value its line has none. */
  lemma BackslashesHide(key: string, escaped: string)
    requires OnlyBackslashes(key) && Sealed(escaped)
    ensures ParseEntry(EntryLine(key, escaped)) == None
  {
    hide Escape, Trailing, Run, Leading, Find;
    var line, n := EntryLine(key, escaped), |Escape(key)|;
    BackslashesEscaped(key);
    assert forall i :: 0 <= i < n ==> line[i] == Escape(key)[i];
    forall j: nat | j < |line| && line[j] == '=' ensures IsEscaped(line, j) {
      if j == n {
        SeparatorEscaped(key, escaped);
      } else if j > n {
        assert escaped[j - n - 1] == '=' && OddBackslashes(escaped, j - n - 1);
        RunInValue(key, escaped, j - n - 1);
      }
    }
    FindNone(line, '=', 0);
  }

  lemma BackslashesEscaped(key: string)
    requires Leading(key) == |key|
    ensures forall i :: 0 <= i < |Escape(key)| ==> Escape(key)[i] == '\\'
  {
    hide Escape, Trailing;
    TrailingAll(key);
    TrailingOfEscape(key);
    TrailingAll(Escape(key));
  }

  lemma {:induction false} UnescapeBehind(s: string, t: string)
    ensures Unescape(Escape(s) + t) == s + Unescape(t)
  {
    hide Escape, EscapeChar, Unescape;
    EscapeNothing();
    if s != [] {
      EscapeAround(s, 0);
      assert s[..0] == [];
      assert Escape(s) + t == EscapeChar(s[0]) + (Escape(s[1..]) + t);
      UnescapeChar(s[0], Escape(s[1..]) + t);
      UnescapeBehind(s[1..], t);
      assert s == [s[0]] + s[1..];
    } else {
      assert [] + t == t && [] + Unescape(t) == Unescape(t);
    }
  }

  lemma UnescapeEnds(rest: string)
    ensures Unescape(['\\']) == [] && Unescape("=" + rest) == "=" + Unescape(rest)
  {
    assert ("=" + rest)[1..] == rest;
  }

  /** An '=' that comes first ends the key: the entry comes back under the backslashes in front of it, with the rest of
      its key in its value. */
  lemma EqualsSplits(key: string, escaped: string)
    requires EqualsFirst(key)
    ensures var line, k := EntryLine(key, escaped), Leading(key);
      && ParseEntry(line) == Some(Entry(key[..k], 2 * k + 1)) && 2 * k + 2 <= |line|
      && Unescape(line[2 * k + 2..]) == key[k + 1..] + ("=" + Unescape(escaped))
  {
    hide Escape, Run, Trailing, IsEscaped, Find, Leading, Unescape;
    var line, k := EntryLine(key, escaped), Leading(key);
    var front, tail := key[..k], Escape(key[k + 1..]);
    LeadingOf(key);
    BackslashesEscaped(front);
    TrailingAll(front);
    TrailingAll(Escape(front));
    TrailingOfEscape(front);
    var p := |Escape(front)| + 1;
    EscapeAround(key, k);
    AroundEquals(line, Escape(front), tail, escaped);
    BackslashesBefore(line, front, p);
    FindSkips(line, '=', 0, p);
    UnescapeBehind(front, ['\\']);
    UnescapeEnds(escaped);
    assert front + [] == front;
    assert line[p + 1..] == tail + ("=" + escaped);
    UnescapeBehind(key[k + 1..], "=" + escaped);
  }

  lemma {:induction false} LeadingOf(key: string)
    ensures Leading(key[..Leading(key)]) == Leading(key)
  {
    if key != [] && key[0] == '\\' {
      LeadingOf(key[1..]);
      assert key[..Leading(key)][1..] == key[1..][..Leading(key[1..])];
    }
  }

  /** An entry line is neither empty nor taken for a comment or a section header. */
  lemma EntryLineStart(key: string, escaped: string)
    ensures var line := EntryLine(key, escaped); line != [] && line[0] != ';' && line[0] != '#' && line[0] != '['
  {
    var line := EntryLine(key, escaped);
    if key != [] {
      EscapeAround(key, 0);
      assert key[..0] == [];
      assert line[0] == EscapeChar(key[0])[0];
    }
  }

  // ----- section headers

  function HeaderLine(name: string): (line: string)
  {
    "[" + Escape(name) + "]"
  }

  /** The name in a header, up to the first ']' that does not count as escaped. */
  function ParseHeader(line: string): Option<string>
    requires line != [] && line[0] == '['
  {
    match Find(line, ']', 0)
    case None => None
    case Some(c) => Some(Unescape(line[1..c]))
  }

  /** Every section name comes back from its header: the bracket in front keeps index 0 out of it. */
  lemma HeaderComesBack(name: string)
    ensures ParseHeader(HeaderLine(name)) == Some(name)
  {
    var line, n := HeaderLine(name), |Escape(name)| + 1;
    assert line[n] == ']' && line[..n] == "[" + Escape(name);
    RunIsTrailing(line, n);
    TrailingAppend("[", Escape(name));
    TrailingOfEscape(name);
    BracketIsNone();
    forall j | 0 <= j < n && line[j] == ']' ensures IsEscaped(line, j) { BracketInName(name, j); }
    FindSkips(line, ']', 0, n);
    assert line[1..n] == Escape(name);
    UnescapeOfEscape(name);
  }

  lemma BracketIsNone()
    ensures Trailing("[") == 0
  {
  }

  lemma BracketInName(name: string, j: nat)
    requires j < |Escape(name)| + 1 && HeaderLine(name)[j] == ']'
    ensures IsEscaped(HeaderLine(name), j)
  {
    hide Escape, Run, Trailing;
    var line := HeaderLine(name);
    assert j > 0 && line[j] == Escape(name)[j - 1];
    var q := SpecialAt(name, ']', j - 1);
    var front := Escape(name[..q]);
    assert line[..j] == "[" + (front + ['\\']);
    RunIsTrailing(line, j);
    TrailingOfEscape(name[..q]);
    OneBackslashMore(front);
    TrailingAppend("[", front + ['\\']);
    BracketIsNone();
  }
}
