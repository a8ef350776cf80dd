/** Text that the program has not written itself, as an editor may leave it. */
module IniForeign {
  import opened Wrappers
  import opened IniText
  import opened IniLoad
  import opened IniFile
  import opened IniLimits

  // ----- characters

  /** Which characters are escaped, and how. */
  lemma EscapedCharacters(c: char)
    ensures c == '\r' ==> Escape([c]) == ['\\', 'r']
    ensures c == '\n' ==> Escape([c]) == ['\\', 'n']
    ensures c == '\\' || c == '=' || c == '[' || c == ']' || c == ';' || c == '#' ==> Escape([c]) == ['\\', c]
    ensures c != '\r' && c != '\n' && c != '\\' && c != '=' && c != '[' && c != ']' && c != ';' && c != '#' ==> Escape([c]) == [c]
  {
    assert [c] == [] + [c];
    EscapeSnoc([], c);
    EscapeNothing();
    assert [] + EscapeChar(c) == EscapeChar(c);
  }

  /** Text without backslashes stands for itself, up to the first one. */
  lemma {:induction false} PlainThen(plain: string, rest: string)
    requires '\\' !in plain
    ensures Unescape(plain + rest) == plain + Unescape(rest)
  {
    if plain == [] {
      assert plain + rest == rest && plain + Unescape(rest) == Unescape(rest);
    } else {
      PlainThen(plain[1..], rest);
      assert (plain + rest)[1..] == plain[1..] + rest;
      assert [plain[0]] + (plain[1..] + Unescape(rest)) == plain + Unescape(rest);
    }
  }

  /** Behind a backslash r and n are the ends of a line, any other character is itself; at the end it is nothing. */
  lemma BackslashThen(plain: string, c: char, rest: string)
    requires '\\' !in plain
    ensures Unescape(plain) == plain && Unescape(plain + ['\\']) == plain
    ensures Unescape(plain + (['\\', 'r'] + rest)) == plain + (['\r'] + Unescape(rest))
    ensures Unescape(plain + (['\\', 'n'] + rest)) == plain + (['\n'] + Unescape(rest))
    ensures c != 'r' && c != 'n' ==> Unescape(plain + (['\\', c] + rest)) == plain + ([c] + Unescape(rest))
  {
    hide Unescape;
    PlainThen(plain, []);
    PlainThen(plain, ['\\']);
    PlainThen(plain, ['\\', 'r'] + rest);
    PlainThen(plain, ['\\', 'n'] + rest);
    PlainThen(plain, ['\\', c] + rest);
    Ends();
    assert plain + [] == plain;
    PairThen('r', rest);
    PairThen('n', rest);
    PairThen(c, rest);
  }

  lemma Ends()
    ensures Unescape([]) == [] && Unescape(['\\']) == []
  {
  }

  lemma PairThen(c: char, rest: string)
    ensures Unescape(['\\', c] + rest) == [if c == 'r' then '\r' else if c == 'n' then '\n' else c] + Unescape(rest)
  {
    var s := ['\\', c] + rest;
    assert s[2..] == rest;
  }

  // ----- lines

  /** Just so many backslashes stand before position i. */
  predicate Backslashes(line: string, i: nat, n: nat) {
    n < i <= |line| && line[i - n - 1] != '\\' && forall j :: i - n <= j < i ==> line[j] == '\\'
  }

  /** The count stops at the first other character. */
  lemma {:induction false} CountBackslashes(line: string, i: nat, n: nat)
    requires Backslashes(line, i, n)
    ensures Run(line, i) == n && (IsEscaped(line, i) <==> n % 2 == 1)
    decreases n
  {
    if n > 0 {
      assert line[i - 1] == '\\';
      CountBackslashes(line, i - 1, n - 1);
    } else {
      assert line[i - 1] != '\\';
    }
  }

  /** A header ends at its first ']' behind an even number of backslashes; what follows on the line is not looked at. */
  lemma HeaderEnds(line: string, c: nat, n: nat)
    requires 1 <= c < |line| && line[0] == '[' && line[c] == ']' && Backslashes(line, c, n) && n % 2 == 0
    requires forall j :: 0 <= j < c && line[j] == ']' ==> exists m: nat :: Backslashes(line, j, m) && m % 2 == 1
    ensures ParseHeader(line) == Some(Unescape(line[1..c]))
  {
    hide Run, IsEscaped, Backslashes;
    CountBackslashes(line, c, n);
    forall j | 0 <= j < c && line[j] == ']' ensures IsEscaped(line, j) {
      var m: nat :| Backslashes(line, j, m) && m % 2 == 1;
      CountBackslashes(line, j, m);
    }
    FindSkips(line, ']', 0, c);
  }

  /** A line that starts with '[' and has no such ']' is no header. */
  lemma NoHeader(line: string)
    requires line != [] && line[0] == '[' && ']' !in line
    ensures ParseHeader(line) == None
  {
    FindNone(line, ']', 0);
  }

  /** A plain name, whatever is behind its bracket: a carriage return, say. */
  lemma PlainHeader(name: string, rest: string)
    requires '\\' !in name && ']' !in name
    ensures ParseHeader("[" + name + "]" + rest) == Some(name)
  {
    hide ParseHeader, Unescape;
    var line, c := "[" + name + "]" + rest, |name| + 1;
    assert line[c] == ']' && line[1..c] == name;
    assert forall j :: 1 <= j < c ==> line[j] == name[j - 1];
    assert Backslashes(line, c, 0) by { assert c - 1 == 0 || line[c - 1] == name[c - 2]; }
    HeaderEnds(line, c, 0);
    BackslashThen(name, 'x', []);
  }

  /** A plain key, whatever the value is. */
  lemma PlainEntry(key: string, rest: string)
    requires '\\' !in key && '=' !in key
    ensures ParseEntry(key + "=" + rest) == Some(Entry(key, |key|))
  {
    hide Unescape, Run;
    var line, e := key + "=" + rest, |key|;
    assert line[e] == '=' && line[..e] == key;
    assert forall j :: 0 <= j < e ==> line[j] == key[j];
    NotEscaped(line, e);
    FindSkips(line, '=', 0, e);
    BackslashThen(key, 'x', []);
  }

  lemma NotEscaped(line: string, i: nat)
    requires i <= |line| && (i == 0 || line[i - 1] != '\\')
    ensures !IsEscaped(line, i)
  {
  }

  /** A line without '=' is no entry. */
  lemma NoEntry(line: string)
    requires '=' !in line
    ensures ParseEntry(line) == None
  {
    FindNone(line, '=', 0);
  }

  /** Empty lines, comments and lines that say nothing leave everything as it is. */
  lemma IdleLine(text: string, line: string)
    requires Terminated(text) && '\n' !in line
    requires line == [] || line[0] == ';' || line[0] == '#' || (line[0] == '[' && ']' !in line) || (line[0] != '[' && '=' !in line)
    ensures Load(text + (line + "\n")) == Load(text)
  {
    hide Load, ParseHeader, ParseEntry;
    LoadAppended(text, line);
    if line != [] && line[0] == '[' && ']' !in line { NoHeader(line); }
    if '=' !in line { NoEntry(line); }
  }

  /** A header and an entry that end with a carriage return: it is left out of the name and belongs to the value. */
  lemma CarriageReturns(name: string, key: string, value: string)
    requires '\\' !in name && ']' !in name && '\n' !in name && '\\' !in value && '\n' !in value
    requires '\\' !in key && '=' !in key && '\n' !in key && (key == "" || key[0] !in ";#[")
    ensures Reloaded(("[" + name + "]" + "\r" + "\n") + (key + "=" + (value + "\r") + "\n")) == map[Id(name, key) := value + "\r"]
  {
    hide Load, ParseHeader, ParseEntry, Unescape, Reloaded;
    var header, line := "[" + name + "]" + "\r", key + "=" + (value + "\r");
    PlainHeader(name, "\r");
    PlainEntry(key, value + "\r");
    assert '\n' !in header && '\n' !in line;
    assert line[0] == if key == "" then '=' else key[0];
    NothingLoaded();
    LoadAppended("", header);
    assert "" + (header + "\n") == header + "\n";
    var text := header + "\n";
    OnlyHeader(text, name);
    LineRead(text, line, key, |key|);
    assert line[|key| + 1..] == value + "\r";
    BackslashThen(value + "\r", 'x', []);
  }

  lemma OnlyHeader(text: string, name: string)
    requires Load(text) == Loaded(name, map[])
    ensures Reloaded(text) == map[]
  {
    hide Load;
  }
}
