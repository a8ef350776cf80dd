/** Keys that a saved file does not come back with, and files that the program has not written. */
module IniLimits {
  import opened Wrappers
  import opened IniText
  import opened IniLoad
  import opened IniKeys
  import opened IniFile

  // ----- a save that fails

  lemma EqualsKey()
    ensures EqualsFirst("=") && !GoodKey("=") && Proper("1") && Sealed("1")
    ensures Escape("1") == "1" && Unescape("1") == "1"
  {
    assert Leading("=") == 0;
    assert "1"[..0] == [] && "1"[1..] == [];
    assert Escape("1") == Escape([]) + EscapeChar('1');
    assert Unescape("1") == ['1'] + Unescape([]);
  }

  ghost predicate SameEntry(text: string, text': string, id: Id) {
    && id in Load(text).views && id in Load(text').views
    && EscapedValue(text', ViewRef(Load(text').views[id])) == EscapedValue(text, ViewRef(Load(text).views[id]))
  }

  /** A line at the end that is taken apart into an entry. */
  lemma LineRead(text: string, line: string, key: string, separator: nat)
    requires Terminated(text) && '\n' !in line && line != [] && line[0] != ';' && line[0] != '#' && line[0] != '['
    requires ParseEntry(line) == Some(Entry(key, separator)) && separator < |line|
    ensures var text', id := text + (line + "\n"), Id(Load(text).section, key);
      && Terminated(text') && Load(text').section == Load(text).section
      && id in Load(text').views && EscapedValue(text', ViewRef(Load(text').views[id])) == line[separator + 1..]
      && Reloaded(text') == Reloaded(text)[id := Unescape(line[separator + 1..])]
      && forall j :: j in Load(text).views && j != id ==> SameEntry(text, text', j)
  {
    hide Load, ParseEntry, Unescape, ViewsOk, Slice;
    var more, id := line + "\n", Id(Load(text).section, key);
    var v := View(|text| + separator + 1, |line| - separator - 1);
    LoadAppended(text, line);
    LoadOk(text);
    AppendKeepsSlices(text, more, Load(text).views);
    SliceOfLine(text, line, separator + 1);
    AppendedValues(text, more, Load(text).views, id, v, line[separator + 1..]);
  }

  lemma SliceOfLine(text: string, line: string, k: nat)
    requires k <= |line|
    ensures Slice(text + (line + "\n"), |text| + k, |line| - k) == line[k..]
  {
  }

  /** What the line of the key "=" is loaded as. */
  lemma EqualsLine()
    ensures Reloaded(EntryLine("=", "1") + "\n") == map[Id("", "") := "=1"]
  {
    hide Escape, Unescape, Leading, EntryLine, Reloaded, Load;
    var line := EntryLine("=", "1");
    EqualsKey();
    EqualsSplits("=", "1");
    EntryLineStart("=", "1");
    EntryHasNoNewline("=", "1");
    NothingLoaded();
    LineRead("", line, "", 1);
    assert "" + (line + "\n") == line + "\n";
    assert "" + ("=" + "1") == "=1";
  }

  /** A map with the key "=" is saved, and loads again with another key and another value. */
  method FailingSave() returns (f: File, ghost saved: map<Id, string>)
    ensures saved == map[Id("", "=") := "1"] && Reloaded(f.text) == map[Id("", "") := "=1"]
  {
    hide Load, Unescape, Escape, Reloaded, EntryLine, Logical, GoodKey;
    NothingLoaded();
    f := new File("");
    ghost var id := Id("", "=");
    f.Write("", "=", "1");
    EqualsKey();
    saved := f.Values();
    assert OneEntry(f.values, id);
    f.Save();
    EqualsLine();
  }

  lemma NothingLoaded()
    ensures Terminated("") && WellKept("") && RefsOf(Load("").views) == map[] && Reloaded("") == map[]
    ensures Load("").section == ""
  {
  }

  // ----- keys that come back although they are bad

  const BACKSLASH: string := "\\"
  const BACKSLASH_EQUALS: string := "\\=a"

  lemma BothBad()
    ensures OnlyBackslashes(BACKSLASH) && EqualsFirst(BACKSLASH_EQUALS) && Leading(BACKSLASH_EQUALS) == 1
    ensures !GoodKey(BACKSLASH) && !GoodKey(BACKSLASH_EQUALS)
  {
    assert BACKSLASH[1..] == "" && BACKSLASH_EQUALS[1..] == "=a";
    assert Leading("") == 0 && Leading("=a") == 0;
    assert Leading(BACKSLASH) == 1;
  }

  /** The line of the one key is taken for an entry of the other. */
  lemma FirstLine()
    ensures var line := EntryLine(BACKSLASH, "a=b");
      ParseEntry(line) == Some(Entry(BACKSLASH_EQUALS, 4)) && |line| == 6 && line[5..] == "b"
  {
    hide Run, Trailing, Leading, Find;
    var line := EntryLine(BACKSLASH, "a=b");
    BothBad();
    assert Escape(BACKSLASH) == Escape([]) + EscapeChar('\\');
    SeparatorEscaped(BACKSLASH, "a=b");
    RunInValue(BACKSLASH, "a=b", 1);
    TrailingOfLetter();
    FindSkips(line, '=', 0, 4);
    assert line[..4] == Escape(BACKSLASH) + "=a" && BACKSLASH + "=a" == BACKSLASH_EQUALS;
    UnescapeBehind(BACKSLASH, "=a");
    assert "=a"[1..] == "a" && "a"[1..] == "";
    assert Unescape("=a") == "=a";
  }

  lemma TrailingOfLetter()
    ensures Trailing("a=b"[..1]) == 0
  {
    assert "a=b"[..1] == "a";
  }

  /** And the other way round. */
  lemma SecondLine()
    ensures var line := EntryLine(BACKSLASH_EQUALS, "b");
      ParseEntry(line) == Some(Entry(BACKSLASH, 3)) && |line| >= 4 && line[4..] == "a=b"
  {
    hide Leading, ParseEntry;
    BothBad();
    EqualsSplits(BACKSLASH_EQUALS, "b");
    assert BACKSLASH_EQUALS[..1] == BACKSLASH;
    assert EntryLine(BACKSLASH_EQUALS, "b") == "\\\\\\=a=b" by { EscapedPair(); }
  }

  lemma EscapedPair()
    ensures Escape(BACKSLASH_EQUALS) == "\\\\\\=a"
  {
    EscapeAround(BACKSLASH_EQUALS, 1);
    assert BACKSLASH_EQUALS[..1] == "\\" && BACKSLASH_EQUALS[2..] == "a";
    assert Escape("\\") == Escape([]) + EscapeChar('\\');
    assert Escape("a") == Escape([]) + EscapeChar('a');
  }

  function Both(first: string, second: string): string {
    (first + "\n") + (second + "\n")
  }

  ghost predicate Line(line: string, key: string, separator: nat, value: string) {
    && '\n' !in line && line != [] && line[0] != ';' && line[0] != '#' && line[0] != '['
    && ParseEntry(line) == Some(Entry(key, separator)) && separator < |line| && line[separator + 1..] == value
  }

  lemma ReadBoth(first: string, key1: string, sep1: nat, value1: string, second: string, key2: string, sep2: nat, value2: string)
    requires Line(first, key1, sep1, value1) && Line(second, key2, sep2, value2) && key1 != key2
    ensures var text, id1, id2 := Both(first, second), Id("", key1), Id("", key2);
      && Reloaded(text) == map[id1 := Unescape(value1), id2 := Unescape(value2)]
      && id1 in Load(text).views && EscapedValue(text, ViewRef(Load(text).views[id1])) == value1
      && id2 in Load(text).views && EscapedValue(text, ViewRef(Load(text).views[id2])) == value2
  {
    hide Load, Unescape, Reloaded, ParseEntry, EscapedValue;
    NothingLoaded();
    LineRead("", first, key1, sep1);
    assert "" + (first + "\n") == first + "\n";
    LineRead(first + "\n", second, key2, sep2);
    assert SameEntry(first + "\n", Both(first, second), Id("", key1));
  }

  lemma PlainValues()
    ensures Unescape("a=b") == "a=b" && Unescape("b") == "b"
  {
    assert "a=b"[1..] == "=b" && "=b"[1..] == "b" && "b"[1..] == "";
    assert Unescape("b") == "b" && Unescape("=b") == "=b";
  }

  lemma EntryIsLine(key: string, escaped: string, parsed: string, separator: nat, value: string)
    requires '\n' !in escaped && ParseEntry(EntryLine(key, escaped)) == Some(Entry(parsed, separator))
    requires separator < |EntryLine(key, escaped)| && EntryLine(key, escaped)[separator + 1..] == value
    ensures Line(EntryLine(key, escaped), parsed, separator, value)
  {
    hide Escape, ParseEntry, EntryLine;
    EntryHasNoNewline(key, escaped);
    EntryLineStart(key, escaped);
  }

  /** What a hard save prints for an entry just loaded. */
  function PrintedAgain(text: string, id: Id): string
    requires id in Load(text).views
  {
    EntryText(text, RefsOf(Load(text).views), id)
  }

  /** A file of these two lines, in either order, gives a map with two bad keys; and the two lines are what a hard save
      prints for them. With an '=' in a value that is not escaped, bad keys can come back. */
  lemma BadKeysSwap()
    ensures !GoodKey(BACKSLASH) && !GoodKey(BACKSLASH_EQUALS) && !Sealed("a=b")
    ensures var line, other := EntryLine(BACKSLASH, "a=b"), EntryLine(BACKSLASH_EQUALS, "b");
      ComesBack(Both(line, other), line, other) && ComesBack(Both(other, line), line, other)
  {
    hide Load, Escape, Unescape, Reloaded, ParseEntry, EntryLine, GoodKey, EscapedValue, Line;
    BothBad();
    FirstLine();
    SecondLine();
    TrailingOfLetter();
    assert !OddBackslashes("a=b", 1);
    PlainValues();
    EntryIsLine(BACKSLASH, "a=b", BACKSLASH_EQUALS, 4, "b");
    EntryIsLine(BACKSLASH_EQUALS, "b", BACKSLASH, 3, "a=b");
    ReadBoth(EntryLine(BACKSLASH, "a=b"), BACKSLASH_EQUALS, 4, "b", EntryLine(BACKSLASH_EQUALS, "b"), BACKSLASH, 3, "a=b");
    ReadBoth(EntryLine(BACKSLASH_EQUALS, "b"), BACKSLASH, 3, "a=b", EntryLine(BACKSLASH, "a=b"), BACKSLASH_EQUALS, 4, "b");
  }

  /** Both entries are there, and these are their lines when they are printed anew. */
  ghost predicate ComesBack(text: string, line: string, other: string) {
    var id, id' := Id("", BACKSLASH), Id("", BACKSLASH_EQUALS);
    && Reloaded(text) == map[id := "a=b", id' := "b"]
    && id in Load(text).views && PrintedAgain(text, id) == line + "\n"
    && id' in Load(text).views && PrintedAgain(text, id') == other + "\n"
  }

  // ----- a file that the program has not written

  const FOREIGN: string := "[a]\nk=1\n[b]\n"

  lemma ForeignLines()
    ensures FOREIGN == ((HeaderLine("a") + "\n") + (EntryLine("k", "1") + "\n")) + (HeaderLine("b") + "\n")
    ensures GoodKey("k") && GoodKey("n")
  {
    assert Escape("a") == Escape([]) + EscapeChar('a');
    assert Escape("b") == Escape([]) + EscapeChar('b');
    assert Escape("k") == Escape([]) + EscapeChar('k');
    assert Leading("k") == 0 && Leading("n") == 0;
  }

  /** All entries of this file are in one section, so a new entry of that section is appended; but the file ends with the
      header of another, and that is where the entry is found again. Files that the program has written do not end so. */
  lemma ForeignFile()
    ensures Terminated(FOREIGN) && !WellKept(FOREIGN)
    ensures Load(FOREIGN).views.Keys == {Id("a", "k")}
    ensures Load(FOREIGN + (EntryLine("n", "v") + "\n")).views.Keys == {Id("a", "k"), Id("b", "n")}
  {
    hide Load, Escape, EntryLine, HeaderLine, GoodKey;
    ForeignLines();
    NothingLoaded();
    HeaderAppended("", "a");
    var text := HeaderLine("a") + "\n";
    assert "" + text == text;
    EntryAppended(text, "k", "1");
    HeaderAppended(text + (EntryLine("k", "1") + "\n"), "b");
    assert Id("a", "k") in Load(FOREIGN).views;
    EntryAppended(FOREIGN, "n", "v");
  }
}
