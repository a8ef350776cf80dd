/** The file-backed map: entries are views into the file until they are written to; a soft save patches the file,
    a hard save prints it anew. */
module IniFile {
  import opened Wrappers
  import opened IniText
  import opened IniLoad
  import opened IniKeys

  /** A clean entry is a view; a written one carries its new escaped value, and the place of the old one if any. */
  datatype Ref = Ref(clean: bool, off: nat, len: nat, escaped: string)

  datatype Touched = Untouched | Soft | Hard

  function Slice(text: string, off: nat, len: nat): string {
    if off + len <= |text| then text[off..off + len] else ""
  }

  function EscapedValue(text: string, r: Ref): string {
    if r.clean then Slice(text, r.off, r.len) else r.escaped
  }

  /** The values as a reader of the map sees them. */
  function Logical(text: string, values: map<Id, Ref>): map<Id, string> {
    map id | id in values :: Unescape(EscapedValue(text, values[id]))
  }

  function ViewRef(v: View): Ref {
    Ref(true, v.off, v.len, "")
  }

  function RefsOf(views: map<Id, View>): map<Id, Ref> {
    map id | id in views :: ViewRef(views[id])
  }

  /** The values that loading a text gives. */
  function Reloaded(text: string): map<Id, string> {
    Logical(text, RefsOf(Load(text).views))
  }

  // ----- invariants

  /** The section at the end of the text has entries, so an appended line belongs to a section that exists. */
  ghost predicate WellKept(text: string) {
    Load(text).views == map[] || exists id :: id in Load(text).views && id.section == Load(text).section
  }

  ghost predicate CleanOk(views: map<Id, View>, values: map<Id, Ref>) {
    forall id :: id in values ==>
      (values[id].clean ==> id in views && values[id] == ViewRef(views[id]))
      && (!values[id].clean ==> Proper(values[id].escaped))
  }

  /** While only soft touched an entry is a clean view, a view with a new value of the same length, or a new entry of
      the section at the end of the text. */
  ghost predicate RefSoft(st: Loaded, values: map<Id, Ref>, id: Id)
    requires id in values
  {
    var r := values[id];
    if id in st.views then st.views[id] == View(r.off, r.len) && (!r.clean ==> |r.escaped| == r.len)
    else !r.clean && r.off == 0 && r.len == 0 && id.section == st.section
  }

  ghost predicate SoftOk(st: Loaded, values: map<Id, Ref>) {
    && CleanOk(st.views, values)
    && (forall id :: id in st.views ==> id in values)
    && (forall id :: id in values ==> RefSoft(st, values, id))
    && (values != map[] ==> st.views != map[])
  }

  /** The new entries that the next soft save appends can be read back. */
  ghost predicate GoodNewKeys(views: map<Id, View>, values: map<Id, Ref>) {
    forall id :: id in values && id !in views ==> GoodKey(id.key)
  }

  predicate GoodKeys(values: map<Id, Ref>) {
    forall id :: id in values ==> GoodKey(id.key)
  }

  lemma LoadedIsClean(text: string)
    requires Terminated(text) && WellKept(text)
    ensures SoftOk(Load(text), RefsOf(Load(text).views))
  {
  }

  lemma AllCleanIsReloaded(text: string, values: map<Id, Ref>)
    requires SoftOk(Load(text), values) && forall id :: id in values ==> values[id].clean
    ensures values == RefsOf(Load(text).views) && Logical(text, values) == Reloaded(text)
  {
    hide Load;
    var views := Load(text).views;
    forall id | id in values ensures id in views && values[id] == ViewRef(views[id]) { assert RefSoft(Load(text), values, id); }
    assert values.Keys == views.Keys;
  }

  // ----- one entry saved

  /** Overwriting a value in place. */
  lemma PatchStep(text: string, values: map<Id, Ref>, id: Id)
    requires Terminated(text) && SoftOk(Load(text), values) && id in values && !values[id].clean && id in Load(text).views
    ensures var r := values[id];
      && r.off + |r.escaped| <= |text| && |r.escaped| == r.len && r.off > |id.key|
      && var text', values' := Patched(text, r.off, r.escaped), values[id := Ref(true, r.off, r.len, "")];
        && Load(text') == Load(text) && Terminated(text') && SoftOk(Load(text'), values')
        && Logical(text', values') == Logical(text, values)
  {
    hide Load, Unescape, SoftOk, Patched, ViewsOk, EscapedValue;
    var r, st := values[id], Load(text);
    DirtyFits(st, values, id);
    PatchKeepsViews(text, id, r.escaped);
    LoadOk(text);
    var text', values' := Patched(text, r.off, r.escaped), values[id := Ref(true, r.off, r.len, "")];
    CleanedIsSoftOk(st, values, id, values');
    forall j | j in values ensures EscapedValue(text', values'[j]) == EscapedValue(text, values[j]) {
      PatchedValue(text, st, values, id, values', j);
    }
    assert values'.Keys == values.Keys;
  }

  lemma DirtyFits(st: Loaded, values: map<Id, Ref>, id: Id)
    requires SoftOk(st, values) && id in values && !values[id].clean && id in st.views
    ensures |values[id].escaped| == values[id].len && '\n' !in values[id].escaped
    ensures st.views[id] == View(values[id].off, values[id].len)
  {
    hide Proper;
    assert RefSoft(st, values, id);
    ProperText(values[id].escaped);
  }

  lemma CleanedIsSoftOk(st: Loaded, values: map<Id, Ref>, id: Id, values': map<Id, Ref>)
    requires SoftOk(st, values) && id in values && id in st.views
    requires values' == values[id := Ref(true, values[id].off, values[id].len, "")]
    ensures SoftOk(st, values')
  {
    forall j | j in values' ensures RefSoft(st, values', j) { assert RefSoft(st, values, j); }
  }

  lemma PatchedValue(text: string, st: Loaded, values: map<Id, Ref>, id: Id, values': map<Id, Ref>, j: Id)
    requires ViewsOk(text, st.views) && SoftOk(st, values) && id in values && !values[id].clean && id in st.views && j in values
    requires values' == values[id := Ref(true, values[id].off, values[id].len, "")]
    requires values[id].off + |values[id].escaped| <= |text|
    ensures EscapedValue(Patched(text, values[id].off, values[id].escaped), values'[j]) == EscapedValue(text, values[j])
  {
    hide SoftOk, ViewsOk;
    var r := values[id];
    DirtyFits(st, values, id);
    if j == id {
      var text' := Patched(text, r.off, r.escaped);
      assert text'[r.off..r.off + r.len] == r.escaped;
    } else if values[j].clean {
      CleanHasView(st, values, j);
      OtherViewStays(text, st.views, id, j, r.escaped);
    }
  }

  lemma CleanHasView(st: Loaded, values: map<Id, Ref>, j: Id)
    requires SoftOk(st, values) && j in values && values[j].clean
    ensures j in st.views && st.views[j] == View(values[j].off, values[j].len)
  {
    assert RefSoft(st, values, j);
  }

  lemma OtherViewStays(text: string, views: map<Id, View>, id: Id, j: Id, escaped: string)
    requires ViewsOk(text, views) && id in views && j in views && j != id && |escaped| == views[id].len
    ensures views[id].off + |escaped| <= |text|
    ensures Slice(Patched(text, views[id].off, escaped), views[j].off, views[j].len) == Slice(text, views[j].off, views[j].len)
  {
    var v, w := views[id], views[j];
    assert ViewOk(text, id, v) && ViewOk(text, j, w) && Apart(v, w);
    var text' := Patched(text, v.off, escaped);
    assert text'[w.off..w.off + w.len] == text[w.off..w.off + w.len];
  }

  /** Appending text leaves the values that are there. */
  lemma AppendKeepsSlices(text: string, more: string, views: map<Id, View>)
    requires ViewsOk(text, views)
    ensures forall id :: id in views ==>
      Slice(text + more, views[id].off, views[id].len) == Slice(text, views[id].off, views[id].len)
  {
    forall id | id in views
      ensures Slice(text + more, views[id].off, views[id].len) == Slice(text, views[id].off, views[id].len)
    {
      var v := views[id];
      assert ViewOk(text, id, v);
      assert (text + more)[v.off..v.off + v.len] == text[v.off..v.off + v.len];
    }
  }

  lemma NewSlice(text: string, key: string, escaped: string)
    ensures Slice(text + (EntryLine(key, escaped) + "\n"), |text| + |Escape(key)| + 1, |escaped|) == escaped
  {
    var all, off := text + (EntryLine(key, escaped) + "\n"), |text| + |Escape(key)| + 1;
    assert all[off..off + |escaped|] == escaped;
  }

  lemma SoftGrows(st: Loaded, values: map<Id, Ref>, id: Id, v: View)
    requires SoftOk(st, values) && id in values && id !in st.views
    ensures SoftOk(Loaded(st.section, st.views[id := v]), values[id := ViewRef(v)])
  {
    var st', values' := Loaded(st.section, st.views[id := v]), values[id := ViewRef(v)];
    forall j | j in values' ensures RefSoft(st', values', j) { assert RefSoft(st, values, j); }
  }

  lemma LogicalGrows(text: string, more: string, views: map<Id, View>, values: map<Id, Ref>, id: Id, v: View)
    requires ViewsOk(text, views) && CleanOk(views, values) && id in values && !values[id].clean
    requires Slice(text + more, v.off, v.len) == values[id].escaped
    ensures Logical(text + more, values[id := ViewRef(v)]) == Logical(text, values)
  {
    hide Unescape, Slice, ViewsOk;
    AppendKeepsSlices(text, more, views);
    var values' := values[id := ViewRef(v)];
    forall j | j in values ensures EscapedValue(text + more, values'[j]) == EscapedValue(text, values[j]) {
      if j != id && values[j].clean { assert values[j] == ViewRef(views[j]); }
    }
    assert values'.Keys == values.Keys;
  }

  /** Appending a new entry to the section at the end. */
  lemma AppendStep(text: string, values: map<Id, Ref>, id: Id)
    requires Terminated(text) && SoftOk(Load(text), values) && id in values && id !in Load(text).views && GoodKey(id.key)
    ensures var r, v := values[id], View(|text| + |Escape(id.key)| + 1, |values[id].escaped|);
      && !r.clean && r.off == 0
      && var text', values' := text + (EntryLine(id.key, r.escaped) + "\n"), values[id := ViewRef(v)];
        && Terminated(text') && SoftOk(Load(text'), values') && Logical(text', values') == Logical(text, values)
        && Load(text') == Loaded(id.section, Load(text).views[id := v])
        && Load(text).section == id.section
  {
    hide Load, Unescape, Escape, GoodKey, EntryLine, ViewsOk, Logical, Slice;
    var r, v, st := values[id], View(|text| + |Escape(id.key)| + 1, |values[id].escaped|), Load(text);
    NewIsSoft(st, values, id);
    EntryAppended(text, id.key, r.escaped);
    LoadOk(text);
    NewSlice(text, id.key, r.escaped);
    SoftGrows(st, values, id, v);
    LogicalGrows(text, EntryLine(id.key, r.escaped) + "\n", st.views, values, id, v);
    assert id == Id(st.section, id.key);
  }

  lemma NewIsSoft(st: Loaded, values: map<Id, Ref>, id: Id)
    requires SoftOk(st, values) && id in values && id !in st.views
    ensures !values[id].clean && values[id].off == 0 && values[id].len == 0 && id.section == st.section
    ensures '\n' !in values[id].escaped && CleanOk(st.views, values)
  {
    hide Proper;
    ProperText(values[id].escaped);
    assert RefSoft(st, values, id);
  }

  lemma AppendKeepsWell(text: string, id: Id, v: View, text': string)
    requires Load(text') == Loaded(id.section, Load(text).views[id := v])
    ensures WellKept(text')
  {
    hide Load;
    assert id in Load(text').views;
  }

  // ----- the map

  lemma RefsOfAdd(views: map<Id, View>, id: Id, v: View)
    ensures RefsOf(views[id := v]) == RefsOf(views)[id := ViewRef(v)]
  {
  }

  method NextLine(text: string, pos: nat) returns (n: nat)
    requires pos <= |text|
    ensures n == LineEnd(text, pos)
  {
    n := pos;
    while n < |text| && text[n] != '\n'
      invariant pos <= n <= |text| && LineEnd(text, n) == LineEnd(text, pos)
    {
      n := n + 1;
    }
  }

  /** Takes a line apart: the new section, and the entry if there is one. */
  method ReadLine(line: string, begin: nat, section: string, values: map<Id, Ref>, ghost views: map<Id, View>)
      returns (section': string, values': map<Id, Ref>, ghost views': map<Id, View>)
    requires values == RefsOf(views)
    ensures Loaded(section', views') == LoadLine(Loaded(section, views), line, begin) && values' == RefsOf(views')
  {
    section', values', views' := section, values, views;
    if line != [] && line[0] != ';' && line[0] != '#' {
      if line[0] == '[' {
        var c := FindUnescaped(line, ']');
        if c.Some? { section' := UnescapeText(line[1..c.value]); }
        return;
      }
      var e := FindUnescaped(line, '=');
      if e.Some? {
        var key := UnescapeText(line[..e.value]);
        ghost var v := View(begin + e.value + 1, |line| - e.value - 1);
        RefsOfAdd(views, Id(section, key), v);
        values' := values[Id(section, key) := Ref(true, begin + e.value + 1, |line| - e.value - 1, "")];
        views' := views[Id(section, key) := v];
      }
    }
  }

  /** Loads all lines of a text that ends with a newline; behind an unfinished last line the stream has no position to tell. */
  method LoadText(text: string) returns (values: map<Id, Ref>)
    requires Terminated(text)
    ensures values == RefsOf(Load(text).views)
  {
    hide LoadLine;
    var section, pos := "", 0;
    values := map[];
    ghost var views := map[];
    assert RefsOf(map[]) == map[];
    while pos < |text|
      invariant LoadFrom(text, pos, Loaded(section, views)) == Load(text) && values == RefsOf(views)
      decreases |text| - pos
    {
      var n := NextLine(text, pos);
      section, values, views := ReadLine(text[pos..n], pos, section, values, views);
      pos := n + 1;
    }
  }

  class File {
    var text: string
    var values: map<Id, Ref>
    var touched: Touched

    /** Clean entries are views of the text; and unless a hard save is due, a soft one will do. */
    ghost predicate Valid()
      reads this
    {
      && Terminated(text) && WellKept(text) && CleanOk(Load(text).views, values)
      && (touched != Hard ==> SoftOk(Load(text), values))
      && (touched == Untouched ==> forall id :: id in values ==> values[id].clean)
    }

    ghost function Values(): map<Id, string>
      reads this
    {
      Logical(text, values)
    }

    /** For files as the program leaves them: they end with a newline, and their last header, if there are entries at all,
        has some. */
    constructor (content: string)
      requires Terminated(content) && WellKept(content)
      ensures Valid() && Values() == Reloaded(content) && text == content && touched == Untouched
    {
      text, values, touched := content, map[], Untouched;
      new;
      values := LoadText(text);
      LoadedIsClean(text);
    }

    method SoftTouch()
      modifies this`touched
      ensures touched == if old(touched) == Untouched then Soft else old(touched)
    {
      if touched == Untouched { touched := Soft; }
    }

    method HardTouch()
      modifies this`touched
      ensures touched == Hard
    {
      touched := Hard;
    }

    /** Writes a value: in place if its escaped form is as long as the old one, at the end if the only section gets a
        new entry; anything else asks for a hard save. */
    method Write(section: string, name: string, value: string)
      requires Valid()
      modifies this`values, this`touched
      ensures Valid() && Values() == old(Values())[Id(section, name) := value]
      ensures old(forall j :: j in values ==> j.section != section) ==>
        touched == Hard && values == old(values)[Id(section, name) := Ref(false, 0, 0, Escape(value))]
      ensures old(Id(section, name) in values && Values()[Id(section, name)] == value) ==>
        values == old(values) && touched == old(touched)
      ensures old(Id(section, name) in values && Values()[Id(section, name)] != value) ==>
        touched == if old(touched == Hard || |Escape(value)| != values[Id(section, name)].len) then Hard else Soft
      ensures old(Id(section, name) !in values && exists j :: j in values && j.section == section) ==>
        touched == if old(touched == Hard || exists j :: j in values && j.section != section) then Hard else Soft
    {
      hide Load, Unescape, Escape, Slice, WellKept;
      var id := Id(section, name);
      UnescapeOfEscape(value);
      if exists j :: j in values && j.section == section {
        if id in values {
          var old' := UnescapeText(EscapedValue(text, values[id]));
          if old' != value {
            var escaped := EscapeText(value);
            ghost var before := values;
            values := values[id := values[id].(clean := false, escaped := escaped)];
            Rewritten(text, before, id, escaped, values);
            if |escaped| == values[id].len { SoftTouch(); } else { HardTouch(); }
          } else {
            assert Values() == Values()[id := value];
          }
        } else {
          ghost var before := values;
          var escaped := EscapeText(value);
          values := values[id := Ref(false, 0, 0, escaped)];
          Inserted(text, before, id, escaped, values);
          if forall j :: j in values ==> j.section == section { SoftTouch(); } else { HardTouch(); }
        }
      } else {
        ghost var before := values;
        var escaped := EscapeText(value);
        values := values[id := Ref(false, 0, 0, escaped)];
        Inserted(text, before, id, escaped, values);
        HardTouch();
      }
    }

    /** Removes an entry, and with it a section that has no others. */
    method Erase(section: string, name: string)
      requires Valid()
      modifies this`values, this`touched
      ensures Valid() && Values() == old(Values()) - {Id(section, name)}
      ensures touched == if old(Id(section, name) in values) then Hard else old(touched)
    {
      hide Load, Unescape, EscapedValue;
      if Id(section, name) in values {
        values := values - {Id(section, name)};
        HardTouch();
      }
    }

    method EraseSection(name: string)
      requires Valid()
      modifies this`values, this`touched
      ensures Valid() && forall id :: id in Values() <==> id in old(Values()) && id.section != name
      ensures forall id :: id in Values() ==> Values()[id] == old(Values())[id]
      ensures touched == if old(exists id :: id in values && id.section == name) then Hard else old(touched)
    {
      hide Load, Unescape, EscapedValue;
      if exists id :: id in values && id.section == name {
        values := map id | id in values && id.section != name :: values[id];
        HardTouch();
      }
    }

    /** One dirty entry of a soft save. */
    method SaveEntry(id: Id, ghost good: bool, ghost known: set<Id>, ghost added: set<Id>, ghost rest: set<Id>)
      requires id in values && !values[id].clean
      requires good ==> SoftReady(text, values)
      requires Saving(text, values, known, added, rest) && id in rest
      modifies this`text, this`values
      ensures values.Keys == old(values.Keys) && (forall j :: j in values && j != id ==> values[j] == old(values)[j])
      ensures good ==> SoftReady(text, values)
      ensures good ==> Values() == old(Values()) && values[id].clean
      ensures Saving(text, values, known, added, rest - {id})
    {
      hide Load, Unescape, Escape, Slice, SoftReady, Logical, Saving, Proper;
      var r := values[id];
      SavesOne(text, values, known, added, rest, id);
      if good {
        if id in Load(text).views { PatchReady(text, values, id); } else { AppendReady(text, values, id); }
      }
      if r.off > |id.key| {
        if r.off + r.len <= |text| && |r.escaped| == r.len {
          text := Patched(text, r.off, r.escaped);
          values := values[id := Ref(true, r.off, r.len, "")];
        }
      } else {
        var key := EscapeText(id.key);
        values := values[id := Ref(true, |text| + |key| + 1, |r.escaped|, "")];
        text := text + (key + "=" + r.escaped + "\n");
      }
    }

    /** Patches values of unchanged length in place and appends new entries. */
    method SaveSoft()
      requires Valid() && touched == Soft
      modifies this`text, this`values
      ensures old(GoodNewKeys(Load(text).views, values)) ==>
        Terminated(text) && WellKept(text) && SoftOk(Load(text), values) && Values() == old(Values())
        && (forall id :: id in values ==> values[id].clean)
      ensures Reloaded(text) == old(Values()) <==> old(GoodNewKeys(Load(text).views, values))
    {
      hide Load, Unescape, Escape, Slice, SoftOk, Logical, GoodKey, WellKept, GoodNewKeys, Reloaded, CleanOk, SoftReady, Saving;
      ghost var good, before := GoodNewKeys(Load(text).views, values), values;
      ghost var known := Load(text).views.Keys;
      ghost var added := values.Keys - known;
      SavingStarts(text, values);
      ReadyParts(text, values);
      var rest := set id | id in values && !values[id].clean;
      while rest != {}
        invariant rest <= values.Keys && (forall id :: id in rest ==> !values[id].clean)
        invariant good ==> forall id :: id in values && id !in rest ==> values[id].clean
        invariant good ==> SoftReady(text, values)
        invariant good ==> Values() == old(Values())
        invariant Saving(text, values, known, added, rest)
        decreases rest
      {
        var id :| id in rest;
        SaveEntry(id, good, known, added, rest);
        rest := rest - {id};
      }
      if Reloaded(text) == old(Values()) { AddedGood(old(text), before, text, values); }
      ReadyParts(text, values);
      if good { AllCleanIsReloaded(text, values); }
    }

    /** Brings the file up to date: whichever way it is saved, loading it again gives the values of the map, provided
        the keys it has to write come back from their lines. */
    method Save()
      requires Valid()
      modifies this
      ensures old(touched == Untouched) ==> Valid() && text == old(text) && Values() == old(Values())
      ensures old(touched == Soft) ==> (Reloaded(text) == old(Values()) <==> old(GoodNewKeys(Load(text).views, values)))
      ensures old(touched == Soft && GoodNewKeys(Load(text).views, values)) ==> Valid() && Values() == old(Values())
      ensures old(touched == Hard && AllSealed(text, values)) ==> (Reloaded(text) == old(Values()) <==> old(GoodKeys(values)))
      ensures old(touched == Hard && GoodKeys(values)) ==>
        Valid() && Values() == old(Values()) && Reloaded(text) == old(Values())
      ensures forall id :: old(touched == Hard && OneEntry(values, id)) ==> text == old(EntryText(text, values, id))
      ensures touched == Untouched
    {
      hide Load, Unescape, Escape, Slice, Logical, GoodKey, WellKept, GoodNewKeys, Reloaded, GoodKeys, AllSealed, EntryLine;
      if touched == Soft {
        SaveSoft();
      } else if touched == Hard {
        ghost var good, was, before := GoodKeys(values), text, values;
        text := PrintAll(text, values);
        if AllSealed(was, before) && Reloaded(text) == Logical(was, before) { AllComeBackGood(text, was, before); }
        values := LoadText(text);
        ReloadedIs(text);
        if good { LoadedIsClean(text); }
      }
      touched := Untouched;
    }
  }

  /** What a soft save starts from and keeps. */
  ghost predicate SoftReady(text: string, values: map<Id, Ref>) {
    Terminated(text) && WellKept(text) && SoftOk(Load(text), values) && GoodNewKeys(Load(text).views, values)
  }

  /** What is left to be saved: new values for what has a line, new entries for the end. */
  ghost predicate SavingRef(text: string, r: Ref, id: Id, known: set<Id>, added: set<Id>) {
    && !r.clean && Proper(r.escaped)
    && if id in known then |id.key| < r.off && |r.escaped| == r.len && HasLine(text, View(r.off, r.len))
       else r.off == 0 && id in added
  }

  /** A soft save in progress, good keys or not. */
  ghost predicate Saving(text: string, values: map<Id, Ref>, known: set<Id>, added: set<Id>, rest: set<Id>) {
    && Terminated(text) && KeysFrom(Load(text).views, known, added)
    && forall id :: id in rest ==> id in values && SavingRef(text, values[id], id, known, added)
  }

  ghost predicate SavedInPlace(text: string, values: map<Id, Ref>, known: set<Id>, added: set<Id>, rest: set<Id>, id: Id)
    requires id in values
  {
    var r := values[id];
    && r.off + r.len <= |text| && |r.escaped| == r.len
    && Saving(Patched(text, r.off, r.escaped), values[id := Ref(true, r.off, r.len, "")], known, added, rest)
  }

  ghost predicate SavedAtEnd(text: string, values: map<Id, Ref>, known: set<Id>, added: set<Id>, rest: set<Id>, id: Id)
    requires id in values
  {
    var r, v := values[id], View(|text| + |Escape(id.key)| + 1, |values[id].escaped|);
    Saving(text + (EntryLine(id.key, r.escaped) + "\n"), values[id := ViewRef(v)], known, added, rest)
  }

  lemma SavingStarts(text: string, values: map<Id, Ref>)
    requires Terminated(text) && SoftOk(Load(text), values)
    ensures var known := Load(text).views.Keys;
      Saving(text, values, known, values.Keys - known, set id | id in values && !values[id].clean)
  {
    hide LoadFrom, Proper, KeysFrom, ValueAt;
    var st, known := Load(text), Load(text).views.Keys;
    NothingWritten(text, values.Keys - known);
    ViewsHaveLines(text, 0, Loaded("", map[]));
    LoadOk(text);
    forall id | id in values && !values[id].clean ensures SavingRef(text, values[id], id, known, values.Keys - known) {
      assert RefSoft(st, values, id);
      if id in known { assert ViewOk(text, id, st.views[id]) && HasLine(text, st.views[id]); }
    }
  }

  lemma SavesOne(text: string, values: map<Id, Ref>, known: set<Id>, added: set<Id>, rest: set<Id>, id: Id)
    requires Saving(text, values, known, added, rest) && id in rest
    ensures id in values && !values[id].clean
    ensures values[id].off > |id.key| <==> id in known
    ensures id in known ==> SavedInPlace(text, values, known, added, rest - {id}, id)
    ensures id !in known ==> SavedAtEnd(text, values, known, added, rest - {id}, id)
  {
    hide Load, Proper, KeysFrom, HasLine, Patched, EntryLine;
    assert SavingRef(text, values[id], id, known, added);
    if id in known { SavesPatch(text, values, known, added, rest, id); } else { SavesEntry(text, values, known, added, rest, id); }
  }

  lemma SavesPatch(text: string, values: map<Id, Ref>, known: set<Id>, added: set<Id>, rest: set<Id>, id: Id)
    requires Saving(text, values, known, added, rest) && id in rest && id in known
    ensures id in values && !values[id].clean
    ensures SavedInPlace(text, values, known, added, rest - {id}, id)
  {
    hide Load, Proper, KeysFrom, HasLine, Patched;
    var r := values[id];
    assert SavingRef(text, r, id, known, added);
    ProperText(r.escaped);
    PatchStays(text, View(r.off, r.len), r.escaped, View(r.off, r.len));
    forall j | j in rest - {id} ensures SavingRef(Patched(text, r.off, r.escaped), values[j], j, known, added) {
      assert SavingRef(text, values[j], j, known, added);
      if j in known { PatchStays(text, View(r.off, r.len), r.escaped, View(values[j].off, values[j].len)); }
    }
  }

  lemma SavesEntry(text: string, values: map<Id, Ref>, known: set<Id>, added: set<Id>, rest: set<Id>, id: Id)
    requires Saving(text, values, known, added, rest) && id in rest && id !in known
    ensures id in values && !values[id].clean
    ensures SavedAtEnd(text, values, known, added, rest - {id}, id)
  {
    hide Load, Proper, KeysFrom, HasLine, EntryLine, Sealed, Terminated;
    var r := values[id];
    assert SavingRef(text, r, id, known, added);
    ProperText(r.escaped);
    EntryAddsKeys(text, id, r.escaped, known, added);
    var more := EntryLine(id.key, r.escaped) + "\n";
    forall j | j in rest - {id} ensures SavingRef(text + more, values[j], j, known, added) {
      assert SavingRef(text, values[j], j, known, added);
      if j in known { LineStays(text, more, View(values[j].off, values[j].len)); }
    }
  }

  /** If the map has come back, the new entries had good keys. */
  lemma AddedGood(was: string, before: map<Id, Ref>, text: string, values: map<Id, Ref>)
    requires Saving(text, values, Load(was).views.Keys, before.Keys - Load(was).views.Keys, {})
    requires Reloaded(text) == Logical(was, before)
    ensures GoodNewKeys(Load(was).views, before)
  {
    hide Load, KeysFrom, Unescape, EscapedValue;
    var known := Load(was).views.Keys;
    assert Reloaded(text).Keys == Load(text).views.Keys && Logical(was, before).Keys == before.Keys;
    ComeBackGood(Load(text).views, known, before.Keys - known);
  }

  lemma PatchReady(text: string, values: map<Id, Ref>, id: Id)
    requires SoftReady(text, values) && id in values && !values[id].clean && id in Load(text).views
    ensures var r := values[id];
      && r.off + r.len <= |text| && |r.escaped| == r.len && r.off > |id.key|
      && var text', values' := Patched(text, r.off, r.escaped), values[id := Ref(true, r.off, r.len, "")];
        SoftReady(text', values') && Logical(text', values') == Logical(text, values)
  {
    hide Load, Unescape, GoodKey, SoftOk, Logical;
    PatchStep(text, values, id);
  }

  lemma AppendReady(text: string, values: map<Id, Ref>, id: Id)
    requires SoftReady(text, values) && id in values && !values[id].clean && id !in Load(text).views
    ensures var r, v := values[id], View(|text| + |Escape(id.key)| + 1, |values[id].escaped|);
      && r.off == 0
      && var text', values' := text + (EntryLine(id.key, r.escaped) + "\n"), values[id := ViewRef(v)];
        SoftReady(text', values') && Logical(text', values') == Logical(text, values)
  {
    hide Load, Unescape, GoodKey, SoftOk, Logical, Escape, EntryLine;
    AppendStep(text, values, id);
    var v := View(|text| + |Escape(id.key)| + 1, |values[id].escaped|);
    AppendKeepsWell(text, id, v, text + (EntryLine(id.key, values[id].escaped) + "\n"));
  }

  lemma ReloadedIs(text: string)
    ensures Reloaded(text) == Logical(text, RefsOf(Load(text).views))
  {
  }

  lemma ReadyParts(text: string, values: map<Id, Ref>)
    ensures SoftReady(text, values) <==>
      Terminated(text) && WellKept(text) && SoftOk(Load(text), values) && GoodNewKeys(Load(text).views, values)
  {
  }

  lemma SetLogical(text: string, before: map<Id, Ref>, id: Id, r: Ref)
    ensures Logical(text, before[id := r]) == Logical(text, before)[id := Unescape(EscapedValue(text, r))]
  {
    hide Unescape, EscapedValue;
  }

  lemma SetDirty(views: map<Id, View>, before: map<Id, Ref>, id: Id, r: Ref)
    requires CleanOk(views, before) && !r.clean && Proper(r.escaped)
    ensures CleanOk(views, before[id := r])
  {
  }

  lemma RewrittenSoft(st: Loaded, before: map<Id, Ref>, id: Id, escaped: string)
    requires SoftOk(st, before) && id in before && |escaped| == before[id].len && Proper(escaped)
    ensures SoftOk(st, before[id := before[id].(clean := false, escaped := escaped)])
  {
    var values := before[id := before[id].(clean := false, escaped := escaped)];
    SetDirty(st.views, before, id, values[id]);
    hide CleanOk;
    forall j | j in values ensures RefSoft(st, values, j) { assert RefSoft(st, before, j); }
  }

  /** A new value for an entry that is there. */
  lemma Rewritten(text: string, before: map<Id, Ref>, id: Id, escaped: string, values: map<Id, Ref>)
    requires id in before && CleanOk(Load(text).views, before) && Proper(escaped)
    requires values == before[id := before[id].(clean := false, escaped := escaped)]
    ensures CleanOk(Load(text).views, values)
    ensures Logical(text, values) == Logical(text, before)[id := Unescape(escaped)]
    ensures SoftOk(Load(text), before) && |escaped| == before[id].len ==> SoftOk(Load(text), values)
  {
    hide Load, Unescape, Slice, CleanOk, SoftOk, Logical;
    SetLogical(text, before, id, values[id]);
    SetDirty(Load(text).views, before, id, values[id]);
    if SoftOk(Load(text), before) && |escaped| == before[id].len { RewrittenSoft(Load(text), before, id, escaped); }
  }

  lemma InsertedSoft(st: Loaded, before: map<Id, Ref>, id: Id, escaped: string)
    requires SoftOk(st, before) && before != map[] && id !in before && Proper(escaped)
    requires forall j :: j in before ==> j.section == id.section
    requires exists k :: k in st.views && k.section == st.section
    ensures SoftOk(st, before[id := Ref(false, 0, 0, escaped)])
  {
    var values := before[id := Ref(false, 0, 0, escaped)];
    SetDirty(st.views, before, id, values[id]);
    hide CleanOk;
    var k :| k in st.views && k.section == st.section;
    assert k in before;
    forall j | j in values ensures RefSoft(st, values, j) {
      if j != id { assert RefSoft(st, before, j); }
    }
  }

  /** A new entry. */
  lemma Inserted(text: string, before: map<Id, Ref>, id: Id, escaped: string, values: map<Id, Ref>)
    requires id !in before && CleanOk(Load(text).views, before) && Proper(escaped) && WellKept(text)
    requires values == before[id := Ref(false, 0, 0, escaped)]
    ensures CleanOk(Load(text).views, values)
    ensures Logical(text, values) == Logical(text, before)[id := Unescape(escaped)]
    ensures SoftOk(Load(text), before) && before != map[] && (forall j :: j in values ==> j.section == id.section)
      ==> SoftOk(Load(text), values)
  {
    hide Load, Unescape, Slice, CleanOk, Logical;
    SetLogical(text, before, id, values[id]);
    SetDirty(Load(text).views, before, id, values[id]);
    if SoftOk(Load(text), before) && before != map[] && forall j :: j in values ==> j.section == id.section {
      assert forall j :: j in before ==> j in values;
      InsertedSoft(Load(text), before, id, escaped);
    }
  }

  // ----- printing anew

  /** No value has an '=' that is not escaped: so it is for values that the program has written itself. */
  ghost predicate AllSealed(text: string, values: map<Id, Ref>) {
    forall id :: id in values ==> Sealed(EscapedValue(text, values[id]))
  }

  /** What has been printed has these keys. */
  ghost predicate KeysPrinted(out: string, values: map<Id, Ref>) {
    Terminated(out) && KeysFrom(Load(out).views, {}, values.Keys)
  }

  lemma AllComeBackGood(out: string, text: string, values: map<Id, Ref>)
    requires KeysPrinted(out, values) && Reloaded(out) == Logical(text, values)
    ensures GoodKeys(values)
  {
    hide Load, KeysFrom, Unescape, EscapedValue;
    assert Reloaded(out).Keys == Load(out).views.Keys && Logical(text, values).Keys == values.Keys;
    ComeBackGood(Load(out).views, {}, values.Keys);
  }

  lemma KeysMore(out: string, text: string, values: map<Id, Ref>, id: Id)
    requires Terminated(text) && CleanOk(Load(text).views, values) && AllSealed(text, values) && id in values
    requires KeysPrinted(out, values)
    ensures KeysPrinted(out + EntryText(text, values, id), values)
  {
    hide Load, Slice, CleanOk, KeysFrom, EntryLine, Sealed, EscapedValue;
    ValueOnLine(text, values, id);
    EntryAddsKeys(out, id, EscapedValue(text, values[id]), {}, values.Keys);
  }

  lemma KeysAsBefore(out: string, name: string, values: map<Id, Ref>)
    requires KeysPrinted(out, values)
    ensures KeysPrinted(out + (HeaderLine(name) + "\n"), values) && KeysPrinted(out + "\n", values)
  {
    hide Load, KeysFrom, HeaderLine;
    HeaderAddsNoKey(out, name, {}, values.Keys);
    BlankAddsNoKey(out, {}, values.Keys);
  }

  predicate OneEntry(values: map<Id, Ref>, id: Id) {
    values.Keys == {id} && id.section == ""
  }

  /** The line of an entry, with its newline. */
  function EntryText(text: string, values: map<Id, Ref>, id: Id): string
    requires id in values
  {
    EntryLine(id.key, EscapedValue(text, values[id])) + "\n"
  }

  lemma PrintEntry(text: string, key: string, escaped: string)
    requires Terminated(text) && '\n' !in escaped && GoodKey(key)
    ensures var text', id := text + (EntryLine(key, escaped) + "\n"), Id(Load(text).section, key);
      && Terminated(text') && Load(text').section == Load(text).section && WellKept(text')
      && Reloaded(text') == Reloaded(text)[id := Unescape(escaped)]
  {
    hide Load, Unescape, Escape, GoodKey, EntryLine, ViewsOk, Slice, Logical;
    var more, id, v := EntryLine(key, escaped) + "\n", Id(Load(text).section, key), View(|text| + |Escape(key)| + 1, |escaped|);
    EntryAppended(text, key, escaped);
    LoadOk(text);
    NewSlice(text, key, escaped);
    AppendKeepsSlices(text, more, Load(text).views);
    AppendedValues(text, more, Load(text).views, id, v, escaped);
    AppendKeepsWell(text, id, v, text + more);
  }

  lemma AppendedValues(text: string, more: string, views: map<Id, View>, id: Id, v: View, escaped: string)
    requires forall j :: j in views ==> Slice(text + more, views[j].off, views[j].len) == Slice(text, views[j].off, views[j].len)
    requires Slice(text + more, v.off, v.len) == escaped
    ensures Logical(text + more, RefsOf(views[id := v])) == Logical(text, RefsOf(views))[id := Unescape(escaped)]
  {
    hide Unescape, Slice;
  }

  lemma PrintHeader(text: string, name: string)
    requires Terminated(text)
    ensures var text' := text + (HeaderLine(name) + "\n");
      Terminated(text') && Load(text').section == name && Reloaded(text') == Reloaded(text)
  {
    hide Load, Unescape, Escape, HeaderLine, ViewsOk, Slice;
    HeaderAppended(text, name);
    LoadOk(text);
    AppendKeepsSlices(text, HeaderLine(name) + "\n", Load(text).views);
  }

  lemma PrintBlank(text: string)
    requires Terminated(text)
    ensures Terminated(text + "\n") && Load(text + "\n").section == Load(text).section && Reloaded(text + "\n") == Reloaded(text)
    ensures WellKept(text) ==> WellKept(text + "\n")
  {
    hide Load, Unescape, ViewsOk, Slice;
    BlankAppended(text);
    LoadOk(text);
    AppendKeepsSlices(text, "\n", Load(text).views);
  }

  /** The part of a map for some entries. */
  function Part(m: map<Id, string>, ids: set<Id>): map<Id, string> {
    map id | id in m && id in ids :: m[id]
  }

  lemma PartMore(m: map<Id, string>, ids: set<Id>, id: Id)
    requires id in m
    ensures Part(m, ids)[id := m[id]] == Part(m, ids + {id})
  {
  }

  lemma ValueOnLine(text: string, values: map<Id, Ref>, id: Id)
    requires Terminated(text) && CleanOk(Load(text).views, values) && id in values
    ensures '\n' !in EscapedValue(text, values[id])
  {
    hide Load;
    LoadOk(text);
    if values[id].clean { assert ViewOk(text, id, Load(text).views[id]); } else { ProperText(values[id].escaped); }
  }

  /** These entries have been printed, the last ones in section `name`. */
  ghost predicate Printed(out: string, name: string, m: map<Id, string>, ids: set<Id>) {
    Terminated(out) && Load(out).section == name && Reloaded(out) == Part(m, ids)
  }

  lemma PrintedMore(out: string, text: string, values: map<Id, Ref>, id: Id, ids: set<Id>)
    requires Terminated(text) && CleanOk(Load(text).views, values) && id in values && GoodKey(id.key)
    requires Printed(out, id.section, Logical(text, values), ids)
    ensures var out' := out + (EntryLine(id.key, EscapedValue(text, values[id])) + "\n");
      Printed(out', id.section, Logical(text, values), ids + {id}) && WellKept(out')
  {
    hide Load, Unescape, Escape, EntryLine, Slice, GoodKey, CleanOk, Reloaded;
    ValueOnLine(text, values, id);
    PrintEntry(out, id.key, EscapedValue(text, values[id]));
    PartMore(Logical(text, values), ids, id);
    assert id == Id(id.section, id.key);
  }

  /** Prints the entries of one section. */
  method PrintSection(out: string, name: string, text: string, values: map<Id, Ref>, ghost good: bool, ghost seal: bool,
                      ghost done: set<Id>) returns (out': string, ghost done': set<Id>)
    requires good ==> Terminated(text) && CleanOk(Load(text).views, values) && GoodKeys(values)
    requires good ==> Printed(out, name, Logical(text, values), done)
    requires seal ==> Terminated(text) && CleanOk(Load(text).views, values) && AllSealed(text, values) && KeysPrinted(out, values)
    ensures seal ==> KeysPrinted(out', values)
    ensures Terminated(out) ==> Terminated(out')
    ensures forall id :: OneEntry(values, id) && name == "" ==> out' == out + EntryText(text, values, id)
    ensures done' == done + set id | id in values && id.section == name
    ensures good ==> Printed(out', name, Logical(text, values), done')
    ensures good && (exists id :: id in values && id.section == name) ==> WellKept(out')
  {
    hide Load, Unescape, Escape, Slice, CleanOk, Printed, Logical, WellKept, GoodKey, KeysPrinted, AllSealed;
    ghost var all := set id | id in values && id.section == name;
    var rest := set id | id in values && id.section == name;
    out', done' := out, done;
    while rest != {}
      invariant rest <= all && done' == done + (all - rest)
      invariant good ==> Printed(out', name, Logical(text, values), done')
      invariant good && rest != all ==> WellKept(out')
      invariant seal ==> KeysPrinted(out', values)
      invariant Terminated(out) ==> Terminated(out')
      invariant forall id :: OneEntry(values, id) && name == "" ==>
        out' == if id in rest then out else out + EntryText(text, values, id)
      decreases rest
    {
      var id :| id in rest;
      if seal { KeysMore(out', text, values, id); }
      if good { PrintedMore(out', text, values, id, done'); }
      var key := EscapeText(id.key);
      out' := out' + (key + "=" + EscapedValue(text, values[id]) + "\n");
      done' := done' + {id};
      rest := rest - {id};
    }
    if id :| id in values && id.section == name { assert id in all; }
    assert forall id :: id !in rest;
  }

  lemma PrintedHeader(out: string, was: string, name: string, m: map<Id, string>, ids: set<Id>)
    requires Printed(out, was, m, ids)
    ensures Printed(out + (HeaderLine(name) + "\n"), name, m, ids)
  {
    hide Load, Unescape, Escape, HeaderLine, Reloaded;
    PrintHeader(out, name);
  }

  lemma PrintedBlank(out: string, was: string, m: map<Id, string>, ids: set<Id>)
    requires Printed(out, was, m, ids)
    ensures Printed(out + "\n", was, m, ids)
  {
    hide Load, Unescape, Reloaded;
    PrintBlank(out);
  }

  lemma PrintedNothing(m: map<Id, string>)
    ensures Printed("", "", m, {}) && WellKept("")
  {
  }

  lemma PrintedAll(out: string, name: string, m: map<Id, string>, ids: set<Id>)
    requires Printed(out, name, m, ids) && m.Keys <= ids
    ensures Terminated(out) && Reloaded(out) == m
  {
    hide Load, Unescape, Reloaded;
    assert Part(m, ids) == m;
  }

  lemma NoKeysPrinted(values: map<Id, Ref>)
    ensures KeysPrinted("", values)
  {
    NothingWritten("", values.Keys);
  }

  /** Prints all sections, the one without a name first, in whatever order otherwise. */
  method PrintAll(text: string, values: map<Id, Ref>) returns (out: string)
    ensures Terminated(text) && CleanOk(Load(text).views, values) && GoodKeys(values)
      ==> Terminated(out) && WellKept(out) && Reloaded(out) == Logical(text, values)
    ensures Terminated(text) && CleanOk(Load(text).views, values) && AllSealed(text, values) ==> KeysPrinted(out, values)
    ensures forall id :: OneEntry(values, id) ==> out == EntryText(text, values, id)
    ensures Terminated(out)
  {
    hide Load, Unescape, Escape, Slice, CleanOk, Printed, Logical, WellKept, GoodKey, Reloaded, KeysPrinted, AllSealed, EntryLine;
    ghost var seal := Terminated(text) && CleanOk(Load(text).views, values) && AllSealed(text, values);
    NoKeysPrinted(values);
    ghost var good, m := Terminated(text) && CleanOk(Load(text).views, values) && GoodKeys(values), Logical(text, values);
    var rest := set id | id in values :: id.section;
    out := "";
    var first := true;
    ghost var done: set<Id>, was := {}, "";
    PrintedNothing(m);
    while rest != {}
      invariant rest <= set id | id in values :: id.section
      invariant done == set id | id in values && id.section !in rest
      invariant good ==> Printed(out, was, m, done) && WellKept(out)
      invariant "" in rest ==> was == ""
      invariant seal ==> KeysPrinted(out, values)
      invariant Terminated(out)
      invariant forall id :: OneEntry(values, id) ==> if "" in rest then out == "" && first else out == EntryText(text, values, id)
      decreases rest
    {
      var name := "";
      if "" !in rest { name :| name in rest; }
      if !first {
        if good { PrintedBlank(out, was, m, done); }
        if seal { KeysAsBefore(out, name, values); }
        out := out + "\n";
      }
      first := false;
      if name != "" {
        if good { PrintedHeader(out, was, name, m, done); }
        if seal { KeysAsBefore(out, name, values); }
        var escaped := EscapeText(name);
        out := out + ("[" + escaped + "]" + "\n");
        was := name;
      }
      ghost var some :| some in values && some.section == name;
      out, done := PrintSection(out, name, text, values, good, seal, done);
      rest := rest - {name};
    }
    if good {
      SameKeys(text, values);
      PrintedAll(out, was, m, done);
    }
  }

  lemma SameKeys(text: string, values: map<Id, Ref>)
    ensures Logical(text, values).Keys == values.Keys
  {
  }
}
