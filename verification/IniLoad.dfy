/** Loading an ini file: its lines give each entry a view into the text. */
module IniLoad {
  import opened Wrappers
  import opened IniText

  /** An entry belongs to a section; no section is ever without entries. */
  datatype Id = Id(section: string, key: string)

  /** Where an entry's escaped value stands. */
  datatype View = View(off: nat, len: nat)

  datatype Loaded = Loaded(section: string, views: map<Id, View>)

  /** Files end with a newline, unless they are empty. */
  predicate Terminated(text: string) {
    text == [] || text[|text| - 1] == '\n'
  }

  function LineEnd(text: string, pos: nat): (n: nat)
    requires pos <= |text|
    ensures pos <= n <= |text| && (n < |text| ==> text[n] == '\n')
    ensures forall i :: pos <= i < n ==> text[i] != '\n'
    decreases |text| - pos
  {
    if pos == |text| || text[pos] == '\n' then pos else LineEnd(text, pos + 1)
  }

  /** What a line that starts at `begin` adds. */
  function LoadLine(st: Loaded, line: string, begin: nat): Loaded {
    if line == [] || line[0] == ';' || line[0] == '#' then st
    else if line[0] == '[' then
      match ParseHeader(line)
      case None => st
      case Some(name) => Loaded(name, st.views)
    else
      match ParseEntry(line)
      case None => st
      case Some(entry) =>
        Loaded(st.section, st.views[Id(st.section, entry.key) := View(begin + entry.separator + 1, |line| - entry.separator - 1)])
  }

  function LoadFrom(text: string, pos: nat, st: Loaded): Loaded
    decreases |text| - pos
  {
    if pos >= |text| then st
    else
      var n := LineEnd(text, pos);
      LoadFrom(text, n + 1, LoadLine(st, text[pos..n], pos))
  }

  function Load(text: string): Loaded {
    LoadFrom(text, 0, Loaded("", map[]))
  }

  // ----- appending a line

  lemma {:induction false} LineEndIs(text: string, pos: nat, n: nat)
    requires pos <= n <= |text| && (n < |text| ==> text[n] == '\n') && forall i :: pos <= i < n ==> text[i] != '\n'
    ensures LineEnd(text, pos) == n
    decreases n - pos
  {
    if pos < n { LineEndIs(text, pos + 1, n); }
  }

  lemma {:induction false} TerminatedLine(text: string, pos: nat)
    requires Terminated(text) && pos < |text|
    ensures LineEnd(text, pos) < |text|
    decreases |text| - pos
  {
    if text[pos] != '\n' && pos + 1 < |text| { TerminatedLine(text, pos + 1); }
  }

  lemma {:induction false} LoadPrefix(text: string, more: string, pos: nat, st: Loaded)
    requires Terminated(text) && pos <= |text|
    ensures LoadFrom(text + more, pos, st) == LoadFrom(text + more, |text|, LoadFrom(text, pos, st))
    decreases |text| - pos
  {
    hide LoadLine;
    if pos < |text| {
      var n, all := LineEnd(text, pos), text + more;
      TerminatedLine(text, pos);
      assert forall i :: pos <= i <= n ==> all[i] == text[i];
      LineEndIs(all, pos, n);
      assert all[pos..n] == text[pos..n];
      LoadPrefix(text, more, n + 1, LoadLine(st, text[pos..n], pos));
    }
  }

  /** One more line, and the newline behind it. */
  lemma LoadAppended(text: string, line: string)
    requires Terminated(text) && '\n' !in line
    ensures Load(text + (line + "\n")) == LoadLine(Load(text), line, |text|)
    ensures Terminated(text + (line + "\n"))
  {
    hide LoadLine;
    var more := line + "\n";
    var all, st := text + more, Load(text);
    LoadPrefix(text, more, 0, Loaded("", map[]));
    forall i | |text| <= i < |text| + |line| ensures all[i] != '\n' { assert all[i] == line[i - |text|]; }
    LineEndIs(all, |text|, |text| + |line|);
    assert all[|text|..|text| + |line|] == line;
  }

  /** An entry line, appended. */
  lemma EntryAppended(text: string, key: string, escaped: string)
    requires Terminated(text) && '\n' !in escaped && GoodKey(key)
    ensures var st := Load(text);
      Load(text + (EntryLine(key, escaped) + "\n"))
      == Loaded(st.section, st.views[Id(st.section, key) := View(|text| + |Escape(key)| + 1, |escaped|)])
    ensures Terminated(text + (EntryLine(key, escaped) + "\n"))
  {
    hide Load, ParseEntry, Escape, GoodKey;
    EntryHasNoNewline(key, escaped);
    LoadAppended(text, EntryLine(key, escaped));
    KeyComesBack(key, escaped);
    EntryLineStart(key, escaped);
  }

  lemma EntryHasNoNewline(key: string, escaped: string)
    requires '\n' !in escaped
    ensures '\n' !in EntryLine(key, escaped)
  {
    EscapeHasNoNewline(key);
  }

  lemma HeaderAppended(text: string, name: string)
    requires Terminated(text)
    ensures Load(text + (HeaderLine(name) + "\n")) == Loaded(name, Load(text).views)
    ensures Terminated(text + (HeaderLine(name) + "\n"))
  {
    hide Load, Escape;
    EscapeHasNoNewline(name);
    assert '\n' !in HeaderLine(name);
    LoadAppended(text, HeaderLine(name));
    HeaderComesBack(name);
  }

  lemma BlankAppended(text: string)
    requires Terminated(text)
    ensures Load(text + "\n") == Load(text) && Terminated(text + "\n")
  {
    LoadAppended(text, "");
    assert "" + "\n" == "\n";
  }

  // ----- views

  ghost predicate ViewOk(text: string, id: Id, v: View) {
    && |id.key| < v.off && v.off + v.len < |text| && '\n' !in text[v.off..v.off + v.len]
  }

  /** Two values are on different lines. */
  ghost predicate Apart(v: View, w: View) {
    v.off + v.len < w.off || w.off + w.len < v.off
  }

  ghost predicate ViewsOk(text: string, views: map<Id, View>) {
    && (forall id :: id in views ==> ViewOk(text, id, views[id]))
    && (forall i, j :: i in views && j in views && i != j ==> Apart(views[i], views[j]))
  }

  ghost predicate Below(views: map<Id, View>, pos: nat) {
    forall id :: id in views ==> views[id].off + views[id].len < pos
  }

  lemma LineAdds(text: string, st: Loaded, pos: nat, n: nat)
    requires Terminated(text) && pos < |text| && n == LineEnd(text, pos) && n < |text|
    requires ViewsOk(text, st.views) && Below(st.views, pos)
    ensures var st' := LoadLine(st, text[pos..n], pos); ViewsOk(text, st'.views) && Below(st'.views, n + 1)
  {
    hide ParseHeader, ParseEntry, ViewsOk, Below;
    var line := text[pos..n];
    BelowMore(st.views, pos, n + 1);
    if line != [] && line[0] != ';' && line[0] != '#' && line[0] != '[' && ParseEntry(line).Some? {
      var entry := ParseEntry(line).value;
      EntryShape(line);
      ViewAdds(text, st.views, pos, n, Id(st.section, entry.key), entry.separator);
    }
  }

  lemma EntryShape(line: string)
    requires ParseEntry(line).Some?
    ensures var e := ParseEntry(line).value; |e.key| <= e.separator < |line|
  {
  }

  lemma BelowMore(views: map<Id, View>, pos: nat, next: nat)
    requires Below(views, pos) && pos <= next
    ensures Below(views, next)
  {
  }

  lemma ViewAdds(text: string, views: map<Id, View>, pos: nat, n: nat, id: Id, e: nat)
    requires ViewsOk(text, views) && Below(views, pos) && pos + e < n < |text| && |id.key| <= e
    requires forall i :: pos <= i < n ==> text[i] != '\n'
    ensures var views' := views[id := View(pos + e + 1, n - pos - e - 1)]; ViewsOk(text, views') && Below(views', n + 1)
  {
    assert '\n' !in text[pos + e + 1..n];
  }

  lemma {:induction false} LoadFromOk(text: string, pos: nat, st: Loaded)
    requires Terminated(text) && pos <= |text| && ViewsOk(text, st.views) && Below(st.views, pos)
    ensures ViewsOk(text, LoadFrom(text, pos, st).views)
    decreases |text| - pos
  {
    hide LoadLine, ViewsOk, Below;
    if pos < |text| {
      var n := LineEnd(text, pos);
      TerminatedLine(text, pos);
      LineAdds(text, st, pos, n);
      LoadFromOk(text, n + 1, LoadLine(st, text[pos..n], pos));
    }
  }

  /** After loading, every view is a stretch of one line, and different entries have different lines. */
  lemma LoadOk(text: string)
    requires Terminated(text)
    ensures ViewsOk(text, Load(text).views)
  {
    LoadFromOk(text, 0, Loaded("", map[]));
  }

  // ----- patching a value in place

  /** The view is what follows the separator in the line that starts at b. */
  ghost predicate ValueAt(text: string, v: View, b: nat) {
    && b < |text| && (b == 0 || text[b - 1] == '\n')
    && var line := text[b..LineEnd(text, b)];
      && line != [] && line[0] != ';' && line[0] != '#' && line[0] != '['
      && ParseEntry(line).Some? && v == View(b + ParseEntry(line).value.separator + 1, |line| - ParseEntry(line).value.separator - 1)
  }

  ghost predicate HasLine(text: string, v: View) {
    exists b: nat :: ValueAt(text, v, b)
  }

  ghost predicate HaveLines(text: string, views: map<Id, View>) {
    forall id :: id in views ==> HasLine(text, views[id])
  }

  lemma LineHasView(text: string, st: Loaded, pos: nat)
    requires pos < |text| && (pos == 0 || text[pos - 1] == '\n') && HaveLines(text, st.views)
    ensures HaveLines(text, LoadLine(st, text[pos..LineEnd(text, pos)], pos).views)
  {
    hide ParseHeader, ParseEntry;
    var n := LineEnd(text, pos);
    var line := text[pos..n];
    var st' := LoadLine(st, line, pos);
    forall id | id in st'.views ensures HasLine(text, st'.views[id]) {
      if id !in st.views || st'.views[id] != st.views[id] {
        assert ValueAt(text, st'.views[id], pos);
      }
    }
  }

  lemma {:induction false} ViewsHaveLines(text: string, pos: nat, st: Loaded)
    requires pos <= |text| && (pos == 0 || text[pos - 1] == '\n') && HaveLines(text, st.views)
    ensures HaveLines(text, LoadFrom(text, pos, st).views)
    decreases |text| - pos
  {
    hide LoadLine, HaveLines;
    if pos < |text| {
      LineHasView(text, st, pos);
      var n := LineEnd(text, pos);
      if n < |text| { ViewsHaveLines(text, n + 1, LoadLine(st, text[pos..n], pos)); }
    }
  }

  function Patched(text: string, off: nat, escaped: string): (r: string)
    requires off + |escaped| <= |text|
    ensures |r| == |text|
    ensures forall i :: 0 <= i < |r| ==> r[i] == if off <= i < off + |escaped| then escaped[i - off] else text[i]
  {
    text[..off] + escaped + text[off + |escaped|..]
  }

  /** The patched line is taken apart as before: what is in front of the value has not changed. */
  lemma PatchedLine(text: string, v: View, b: nat, escaped: string, st: Loaded)
    requires ValueAt(text, v, b) && |escaped| == v.len && v.off + v.len <= |text| && '\n' !in escaped
    ensures var n, text' := LineEnd(text, b), Patched(text, v.off, escaped);
      LineEnd(text', b) == n && LoadLine(st, text'[b..n], b) == LoadLine(st, text[b..n], b)
  {
    hide ParseHeader, Escape, Unescape, IsEscaped;
    var n, text' := LineEnd(text, b), Patched(text, v.off, escaped);
    var line, line' := text[b..n], text'[b..n];
    var e := ParseEntry(line).value.separator;
    forall i | b <= i < n ensures text'[i] != '\n' { }
    LineEndIs(text', b, n);
    assert line[..e + 1] == line'[..e + 1];
    FindOfPrefix(line, line', '=', 0, e);
    assert line'[..e] == line'[..e + 1][..e] && line[..e] == line[..e + 1][..e];
    assert line'[0] == line'[..e + 1][0] && line[0] == line[..e + 1][0];
  }

  /** Another line is not touched. */
  lemma OtherLine(text: string, v: View, b: nat, escaped: string, pos: nat)
    requires ValueAt(text, v, b) && |escaped| == v.len && v.off + v.len <= |text| && '\n' !in escaped
    requires pos < |text| && (pos == 0 || text[pos - 1] == '\n') && pos != b
    ensures var n, text' := LineEnd(text, pos), Patched(text, v.off, escaped);
      LineEnd(text', pos) == n && text'[pos..n] == text[pos..n]
  {
    hide ParseHeader, ParseEntry;
    EntryShape(text[b..LineEnd(text, b)]);
    var n, text' := LineEnd(text, pos), Patched(text, v.off, escaped);
    if pos < b {
      assert n <= b - 1;
    } else {
      assert LineEnd(text, b) <= pos - 1;
    }
    assert forall i :: pos <= i < n ==> text'[i] == text[i];
    LineEndIs(text', pos, n);
  }

  lemma {:induction false} PatchFrom(text: string, v: View, b: nat, escaped: string, pos: nat, st: Loaded)
    requires ValueAt(text, v, b) && |escaped| == v.len && v.off + v.len <= |text| && '\n' !in escaped
    requires pos <= |text| && (pos == 0 || text[pos - 1] == '\n')
    ensures LoadFrom(Patched(text, v.off, escaped), pos, st) == LoadFrom(text, pos, st)
    decreases |text| - pos
  {
    hide LoadLine, LoadFrom, ValueAt, Patched;
    LoadFromStep(text, pos, st);
    LoadFromStep(Patched(text, v.off, escaped), pos, st);
    if pos < |text| {
      var n := LineEnd(text, pos);
      if pos == b { PatchedLine(text, v, b, escaped, st); } else { OtherLine(text, v, b, escaped, pos); }
      if n < |text| {
        PatchFrom(text, v, b, escaped, n + 1, LoadLine(st, text[pos..n], pos));
      } else {
        LoadFromStep(text, n + 1, LoadLine(st, text[pos..n], pos));
        LoadFromStep(Patched(text, v.off, escaped), n + 1, LoadLine(st, text[pos..n], pos));
      }
    }
  }

  lemma LoadFromStep(text: string, pos: nat, st: Loaded)
    ensures LoadFrom(text, pos, st) == if pos >= |text| then st
      else LoadFrom(text, LineEnd(text, pos) + 1, LoadLine(st, text[pos..LineEnd(text, pos)], pos))
  {
  }

  /** Overwriting a value with one of the same length leaves all views where they are. */
  lemma PatchKeepsViews(text: string, id: Id, escaped: string)
    requires Terminated(text) && id in Load(text).views
    requires |escaped| == Load(text).views[id].len && '\n' !in escaped
    ensures ViewOk(text, id, Load(text).views[id])
    ensures Load(Patched(text, Load(text).views[id].off, escaped)) == Load(text)
    ensures Terminated(Patched(text, Load(text).views[id].off, escaped))
  {
    hide LoadFrom, ValueAt, LoadLine;
    LoadOk(text);
    ViewsHaveLines(text, 0, Loaded("", map[]));
    var v := Load(text).views[id];
    assert HasLine(text, v);
    var b: nat :| ValueAt(text, v, b);
    PatchFrom(text, v, b, escaped, 0, Loaded("", map[]));
  }
}
