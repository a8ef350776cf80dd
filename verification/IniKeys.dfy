/** Which keys the lines of a saved file come back with. */
module IniKeys {
  import opened Wrappers
  import opened IniText
  import opened IniLoad

  /** What the lines printed for the entries `written` have added to those known before: no key with an '=' first; and none
      but good keys, if no entry written has such a key. */
  ghost predicate KeysFrom(views: map<Id, View>, known: set<Id>, written: set<Id>) {
    && (forall id :: id in views && id !in known ==> !EqualsFirst(id.key))
    && ((forall id :: id in written ==> !EqualsFirst(id.key)) ==> forall id :: id in views && id !in known ==> GoodKey(id.key))
  }

  lemma EntryKeepsKeys(st: Loaded, id: Id, escaped: string, begin: nat, known: set<Id>, written: set<Id>)
    requires KeysFrom(st.views, known, written) && id in written && Sealed(escaped)
    ensures KeysFrom(LoadLine(st, EntryLine(id.key, escaped), begin).views, known, written)
  {
    hide ParseEntry, ParseHeader, Sealed, Leading;
    EntryLineStart(id.key, escaped);
    GoodOrNot(id.key);
    if EqualsFirst(id.key) {
      EqualsSplits(id.key, escaped);
      LeadingOf(id.key);
    } else if OnlyBackslashes(id.key) {
      BackslashesHide(id.key, escaped);
    } else {
      KeyComesBack(id.key, escaped);
    }
  }

  /** One more entry line. */
  lemma EntryAddsKeys(text: string, id: Id, escaped: string, known: set<Id>, written: set<Id>)
    requires Terminated(text) && KeysFrom(Load(text).views, known, written) && id in written && Sealed(escaped) && '\n' !in escaped
    ensures var text' := text + (EntryLine(id.key, escaped) + "\n");
      Terminated(text') && KeysFrom(Load(text').views, known, written)
  {
    hide Load, Escape, KeysFrom, Sealed, LoadLine;
    EntryHasNoNewline(id.key, escaped);
    LoadAppended(text, EntryLine(id.key, escaped));
    EntryKeepsKeys(Load(text), id, escaped, |text|, known, written);
  }

  lemma HeaderAddsNoKey(text: string, name: string, known: set<Id>, written: set<Id>)
    requires Terminated(text) && KeysFrom(Load(text).views, known, written)
    ensures var text' := text + (HeaderLine(name) + "\n");
      Terminated(text') && KeysFrom(Load(text').views, known, written)
  {
    hide Load, Escape, KeysFrom;
    HeaderAppended(text, name);
  }

  lemma BlankAddsNoKey(text: string, known: set<Id>, written: set<Id>)
    requires Terminated(text) && KeysFrom(Load(text).views, known, written)
    ensures Terminated(text + "\n") && KeysFrom(Load(text + "\n").views, known, written)
  {
    hide Load, KeysFrom;
    BlankAppended(text);
  }

  lemma NothingWritten(text: string, written: set<Id>)
    ensures KeysFrom(Load(text).views, Load(text).views.Keys, written)
    ensures KeysFrom(Load("").views, {}, written)
  {
  }

  /** If all that was written has come back, all of it had good keys. */
  lemma ComeBackGood(views: map<Id, View>, known: set<Id>, written: set<Id>)
    requires KeysFrom(views, known, written) && written <= views.Keys && written !! known
    ensures forall id :: id in written ==> GoodKey(id.key)
  {
    forall id | id in written ensures !EqualsFirst(id.key) { assert id in views && id !in known; }
  }

  // ----- the lines of views that are to be patched

  /** One more line at the end leaves a value where it is. */
  lemma LineStays(text: string, more: string, v: View)
    requires Terminated(text) && HasLine(text, v)
    ensures HasLine(text + more, v)
  {
    hide ParseEntry;
    var b: nat :| ValueAt(text, v, b);
    var n, all := LineEnd(text, b), text + more;
    TerminatedLine(text, b);
    assert forall i :: b <= i <= n ==> all[i] == text[i];
    LineEndIs(all, b, n);
    assert all[b..n] == text[b..n];
    assert b > 0 ==> all[b - 1] == text[b - 1];
    assert ValueAt(all, v, b);
  }

  lemma SameValue(text: string, v: View, b: nat, escaped: string)
    requires ValueAt(text, v, b) && |escaped| == v.len && v.off + v.len <= |text| && '\n' !in escaped
    ensures ValueAt(Patched(text, v.off, escaped), v, b)
  {
    hide Escape, Unescape, IsEscaped;
    var n, text' := LineEnd(text, b), Patched(text, v.off, escaped);
    var line, line' := text[b..n], text'[b..n];
    var e := ParseEntry(line).value.separator;
    forall i | b <= i < n ensures text'[i] != '\n' { }
    LineEndIs(text', b, n);
    assert line[..e + 1] == line'[..e + 1];
    FindOfPrefix(line, line', '=', 0, e);
    assert line'[0] == line'[..e + 1][0] && line[0] == line[..e + 1][0];
    assert b > 0 ==> text'[b - 1] == text[b - 1];
  }

  /** The newline in front of a line is no part of a value. */
  lemma BeforeLine(text: string, v: View, b: nat, c: nat)
    requires ValueAt(text, v, b) && 0 < c < |text| && text[c - 1] == '\n'
    ensures !(v.off <= c - 1 < v.off + v.len)
  {
    EntryShape(text[b..LineEnd(text, b)]);
  }

  lemma OtherValue(text: string, v: View, b: nat, escaped: string, w: View, c: nat)
    requires ValueAt(text, v, b) && ValueAt(text, w, c) && b != c
    requires |escaped| == v.len && v.off + v.len <= |text| && '\n' !in escaped
    ensures ValueAt(Patched(text, v.off, escaped), w, c)
  {
    hide ParseEntry, LoadFrom;
    OtherLine(text, v, b, escaped, c);
    if c > 0 { BeforeLine(text, v, b, c); }
  }

  lemma PatchedEnds(text: string, v: View, b: nat, escaped: string)
    requires Terminated(text) && ValueAt(text, v, b) && |escaped| == v.len
    ensures v.off + v.len <= |text| && Terminated(Patched(text, v.off, escaped))
  {
    TerminatedLine(text, b);
    EntryShape(text[b..LineEnd(text, b)]);
  }

  /** Overwriting a value leaves every value where it is, and what the text loads to. */
  lemma PatchStays(text: string, v: View, escaped: string, w: View)
    requires Terminated(text) && HasLine(text, v) && HasLine(text, w) && |escaped| == v.len && '\n' !in escaped
    ensures v.off + v.len <= |text|
    ensures var text' := Patched(text, v.off, escaped); Terminated(text') && HasLine(text', w) && Load(text') == Load(text)
  {
    hide ValueAt, LoadFrom, Patched, Terminated;
    var b: nat :| ValueAt(text, v, b);
    var c: nat :| ValueAt(text, w, c);
    PatchedEnds(text, v, b, escaped);
    PatchFrom(text, v, b, escaped, 0, Loaded("", map[]));
    if b == c { SameValue(text, v, b, escaped); SameView(text, v, w, b); } else { OtherValue(text, v, b, escaped, w, c); }
    assert ValueAt(Patched(text, v.off, escaped), w, c);
  }

  lemma SameView(text: string, v: View, w: View, b: nat)
    requires ValueAt(text, v, b) && ValueAt(text, w, b)
    ensures v == w
  {
  }
}
