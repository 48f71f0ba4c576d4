/** The document class: records, their public view and the two indexes. */
module IniDocuments {
  import opened Text
  import opened IniRecords

  datatype GetResult = Ok(value: string) | SectionNotFound | KeyNotFound

  /** The records a new key goes into: with a header for its section. */
  ghost function Base(before: Records, s: string, newline: string): Records {
    if s == "" || HasHeader(before, s) then before else WithHeader(before, s, newline)
  }

  /** What `set` does to the records: one line changed, or one line or block added. */
  ghost predicate SetEdit(before: Records, after: Records, s: string, k: string, v: string, newline: string) {
    if Lookup(before, s, k).Some? then
      exists i :: 0 <= i < |before| && LastKey(before, |before|, s, k, Some(i))
        && after == before[i := before[i].(value := v, raw := Rebuilt(before[i], v))]
    else
      exists pos: nat :: InsertAt(Base(before, s, newline), s, pos)
        && after == Inserted(Base(before, s, newline), pos, NewKey(s, k, v, newline))
  }

  /** What `remove` does: the last line of the key goes, an earlier one is uncovered. */
  ghost predicate KeyCut(before: Records, after: Records, s: string, k: string, i: nat) {
    && i < |before| && LastKey(before, |before|, s, k, Some(i))
    && after == Cut(before, i, i + 1) && Lookup(after, s, k) == Lookup(before[..i], s, k)
  }

  /** Two lines are headers of the section. */
  ghost predicate HeaderTwice(rs: Records, s: string) {
    exists i, j :: 0 <= i < j < |rs| && IsHeader(rs[i], s) && IsHeader(rs[j], s)
  }

  /**
    What `remove_section` does to a named section: the block of its last header goes, and
    its keys are then those of the lines before that header.
   */
  ghost predicate BlockCut(before: Records, after: Records, s: string, start: nat, end: nat) {
    && Block(before, s, start, end) && after == Cut(before, start, end)
    && forall k :: Lookup(after, s, k) == Lookup(before[..start], s, k)
  }

  class IniDocument {
    var records: Records
    var publicLines: seq<Line>
    var sectionIndex: map<string, nat>
    var keyIndex: map<string, map<string, nat>>
    var defaultLineEnding: string

    /** The derived fields are those rebuilt from the records, and keys lie under their headers. */
    ghost predicate Valid()
      reads this
    {
      Indexed() && WellFormed(records)
    }

    ghost predicate Indexed()
      reads this
    {
      && publicLines == Views(records)
      && sectionIndex == SectionIndex(records, |records|) && keyIndex == KeyIndex(records, |records|)
    }

    /** A document over records as the reader leaves them. */
    constructor (records: Records, defaultLineEnding: string)
      requires WellFormed(records)
      ensures Valid() && this.records == records && this.defaultLineEnding == defaultLineEnding
    {
      this.records := records;
      this.defaultLineEnding := defaultLineEnding;
      new;
      RebuildIndex();
    }

    method RebuildIndex()
      modifies this`publicLines, this`sectionIndex, this`keyIndex
      ensures Indexed()
    {
      publicLines, sectionIndex, keyIndex := [], map[], map[];
      var i := 0;
      while i < |records|
        invariant 0 <= i <= |records| && publicLines == Views(records[..i])
        invariant sectionIndex == SectionIndex(records, i) && keyIndex == KeyIndex(records, i)
      {
        var r := records[i];
        publicLines := publicLines + [Line(r.kind, r.section, r.key, r.value)];
        if r.kind.Section? {
          sectionIndex := sectionIndex[r.section := i];
        } else if r.kind.KeyValue? {
          var inner := if r.section in keyIndex then keyIndex[r.section] else map[];
          keyIndex := keyIndex[r.section := inner[r.key := i]];
        }
        i := i + 1;
      }
      assert records[..i] == records;
    }

    function LineEnding(): string
      reads this
    {
      if defaultLineEnding == [] then "\n" else defaultLineEnding
    }

    // ----------------------------------------------------------------------- queries

    method Get(s: string, k: string) returns (r: GetResult)
      requires Valid()
      ensures r.Ok? <==> Lookup(records, s, k).Some?
      ensures r.Ok? ==> Lookup(records, s, k) == Some(r.value)
      ensures r.SectionNotFound? <==> forall i :: 0 <= i < |records| && records[i].kind.KeyValue? ==> records[i].section != s
    {
      hide Lookup, KeyIndex;
      IndexedLookup(records, s, k);
      KeyIndexSections(records, |records|, s);
      if s !in keyIndex {
        return SectionNotFound;
      }
      if k !in keyIndex[s] {
        return KeyNotFound;
      }
      r := Ok(records[keyIndex[s][k]].value);
    }

    method HasSection(s: string) returns (r: bool)
      requires Valid()
      ensures s != "" ==> (r <==> HasHeader(records, s))
      ensures s == "" ==> (r <==> HasGlobal(records))
    {
      SectionIndexIsLast(records, |records|, s);
      KeyIndexSections(records, |records|, s);
      if s == "" {
        r := s in keyIndex;
        if r {
          var i :| 0 <= i < |records| && records[i].kind.KeyValue? && records[i].section == s;
          assert IsGlobalKey(records[i]);
        }
      } else {
        r := s in sectionIndex;
      }
    }

    method ListKeys(s: string) returns (keys: seq<string>)
      requires Valid()
      ensures keys == Keys(records, |records|, s)
      ensures forall k :: k in keys <==> Lookup(records, s, k).Some?
    {
      keys := [];
      var seen: set<string> := {};
      var i := 0;
      while i < |records|
        invariant 0 <= i <= |records| && keys == Keys(records, i, s)
        invariant forall k :: k in seen <==> k in keys
      {
        var r := records[i];
        if r.kind.KeyValue? && r.section == s && r.key !in seen {
          seen := seen + {r.key};
          keys := keys + [r.key];
        }
        i := i + 1;
      }
      KeysOnce(records, |records|, s);
      assert records[..|records|] == records;
    }

    // ----------------------------------------------------------------------- editing

    method FindInsertPosition(s: string) returns (pos: nat)
      requires Indexed() && (s == "" || HasHeader(records, s))
      ensures InsertAt(records, s, pos)
    {
      SectionIndexIsLast(records, |records|, s);
      ghost var header := FindHeader(sectionIndex, s);
      var start := 0;
      if s != "" {
        start := sectionIndex[s] + 1;
      }
      pos := start;
      while pos < |records| && !records[pos].kind.Section?
        invariant start <= pos <= |records|
        invariant forall i :: start <= i < pos ==> !records[i].kind.Section?
      {
        pos := pos + 1;
      }
      if s != "" {
        assert LastHeader(records, |records|, s, Some(sectionIndex[s]));
      }
    }

    method Set(s: string, k: string, v: string)
      requires Valid()
      modifies this
      ensures Valid() && defaultLineEnding == old(defaultLineEnding)
      ensures Lookup(records, s, k) == Some(v)
      ensures forall s', k' :: (s', k') != (s, k) ==> Lookup(records, s', k') == Lookup(old(records), s', k')
      ensures SetEdit(old(records), records, s, k, v, LineEnding())
    {
      hide Lookup, KeyIndex, SectionIndex, WellFormedFrom, InsertAt, LastHeader, WithHeader, NewKey, Rebuilt;
      IndexedLookup(records, s, k);
      HeaderKnown(records, s);
      ghost var before := records;
      if s in keyIndex && k in keyIndex[s] {
        ghost var i := keyIndex[s][k];
        Overwrite(s, k, v, keyIndex[s][k]);
        assert LastKey(before, |before|, s, k, Some(i));
        return;
      }
      if s != "" && s !in sectionIndex {
        AddHeader(s);
      }
      ghost var base := records;
      InsertKey(s, k, v);
      assert base == Base(before, s, LineEnding());
    }

    /** A section that does not exist yet gets a header at the end. */
    method AddHeader(s: string)
      requires Valid() && s != ""
      modifies this`records, this`publicLines, this`sectionIndex, this`keyIndex
      ensures Valid() && records == WithHeader(old(records), s, LineEnding()) && HasHeader(records, s)
      ensures forall s', k' :: Lookup(records, s', k') == Lookup(old(records), s', k')
    {
      hide Lookup, KeyIndex, SectionIndex, WellFormedFrom, InsertAt;
      HeaderAdded(records, s, LineEnding());
      if records != [] && records[|records| - 1].raw != [] {
        records := records + [NewBlank(LineEnding())];
      }
      records := records + [NewHeader(s, LineEnding())];
      assert records == WithHeader(old(records), s, LineEnding());
      assert records[|records| - 1].kind.Section? && records[|records| - 1].section == s;
      RebuildIndex();
    }

    /** A new key goes at the end of its block. */
    method InsertKey(s: string, k: string, v: string)
      requires Valid() && (s == "" || HasHeader(records, s)) && Lookup(records, s, k) == None
      modifies this`records, this`publicLines, this`sectionIndex, this`keyIndex
      ensures Valid() && Lookup(records, s, k) == Some(v)
      ensures forall s', k' :: (s', k') != (s, k) ==> Lookup(records, s', k') == Lookup(old(records), s', k')
      ensures exists pos: nat :: InsertAt(old(records), s, pos) && records == Inserted(old(records), pos, NewKey(s, k, v, LineEnding()))
    {
      hide Lookup, KeyIndex, SectionIndex, WellFormedFrom, InsertAt;
      var pos := FindInsertPosition(s);
      PositionInRange(records, s, pos);
      InsertedKey(records, s, k, v, LineEnding(), pos);
      records := records[..pos] + [NewKey(s, k, v, LineEnding())] + records[pos..];
      assert records == Inserted(old(records), pos, NewKey(s, k, v, LineEnding()));
      RebuildIndex();
    }

    /** An existing key keeps its line, rebuilt around the new value. */
    method Overwrite(s: string, k: string, v: string, i: nat)
      requires Valid() && i < |records| && LastKey(records, |records|, s, k, Some(i))
      modifies this`records, this`publicLines
      ensures Valid() && Lookup(records, s, k) == Some(v)
      ensures records == old(records)[i := old(records)[i].(value := v, raw := Rebuilt(old(records)[i], v))]
      ensures forall s', k' :: (s', k') != (s, k) ==> Lookup(records, s', k') == Lookup(old(records), s', k')
    {
      hide Lookup, KeyIndex, SectionIndex, WellFormedFrom, Rebuilt;
      var r := records[i];
      var changed := r.(value := v, raw := Rebuilt(r, v));
      UpdatedKey(records, i, changed);
      IndexesIgnoreValues(records, records[i := changed], |records|);
      records := records[i := changed];
      publicLines := publicLines[i := Line(changed.kind, changed.section, changed.key, changed.value)];
      assert publicLines == Views(records);
    }

    // ---------------------------------------------------------------------- removing

    method Remove(s: string, k: string) returns (removed: bool)
      requires Valid()
      modifies this
      ensures Valid()
      ensures removed <==> Lookup(old(records), s, k).Some?
      ensures !removed ==> records == old(records)
      ensures removed ==> exists i :: KeyCut(old(records), records, s, k, i)
      ensures forall s', k' :: (s', k') != (s, k) ==> Lookup(records, s', k') == Lookup(old(records), s', k')
    {
      hide Lookup, KeyIndex, SectionIndex, WellFormedFrom;
      IndexedLookup(records, s, k);
      if s !in keyIndex {
        return false;
      }
      if k !in keyIndex[s] {
        return false;
      }
      var i := keyIndex[s][k];
      RemovedKey(records, i);
      records := records[..i] + records[i + 1..];
      assert KeyCut(old(records), records, s, k, i);
      RebuildIndex();
      removed := true;
    }

    method RemoveGlobals() returns (removed: bool)
      requires Valid()
      modifies this
      ensures Valid() && records == WithoutGlobals(old(records))
      ensures removed <==> HasGlobal(old(records))
    {
      hide KeyIndex, SectionIndex, Lookup, WellFormedFrom, Views;
      ghost var before := records;
      GlobalsRemoved(records);
      var kept: Records := [];
      removed := false;
      var i := 0;
      while i < |records|
        invariant 0 <= i <= |records| && records == before && Indexed()
        invariant kept == WithoutGlobals(records[..i])
        invariant removed <==> |kept| < i
      {
        GlobalsStep(records, i);
        if IsGlobalKey(records[i]) {
          removed := true;
        } else {
          kept := kept + [records[i]];
        }
        i := i + 1;
      }
      assert records[..i] == records;
      ShorterIff(records);
      records := kept;
      if removed {
        RebuildIndex();
      }
    }

    method RemoveSection(s: string) returns (removed: bool)
      requires Valid()
      modifies this
      ensures Valid()
      ensures s == "" ==> records == WithoutGlobals(old(records))
      ensures s == "" ==> (removed <==> HasGlobal(old(records)))
      ensures s != "" ==> (removed <==> HasHeader(old(records), s))
      ensures s != "" && !removed ==> records == old(records)
      ensures s != "" && removed ==> exists start: nat, end: nat :: BlockCut(old(records), records, s, start, end)
      ensures s != "" && removed ==> (HasHeader(records, s) <==> HeaderTwice(old(records), s))
      ensures forall s', k :: s' != s ==> Lookup(records, s', k) == Lookup(old(records), s', k)
      ensures s == "" ==> forall k :: Lookup(records, s, k) == None
    {
      hide KeyIndex, SectionIndex, Lookup, WellFormedFrom, HeaderTwice;
      if s == "" {
        GlobalsRemoved(records);
        removed := RemoveGlobals();
        return;
      }
      SectionIndexIsLast(records, |records|, s);
      HeaderKnown(records, s);
      if s !in sectionIndex {
        return false;
      }
      var start := sectionIndex[s];
      var end := FindBlockEnd(s, start);
      CutWellFormed(records, s, start, end);
      SectionRemoved(records, s, start, end);
      EarlierHeader(records, s, start);
      records := records[..start] + records[end..];
      assert BlockCut(old(records), records, s, start, end);
      RebuildIndex();
      removed := true;
    }

    /** The end of the block of a header: trailing remarks stay when another header follows. */
    method FindBlockEnd(s: string, start: nat) returns (end: nat)
      requires LastHeader(records, |records|, s, Some(start))
      ensures Block(records, s, start, end)
    {
      end := start + 1;
      while end < |records| && !records[end].kind.Section?
        invariant start + 1 <= end <= |records|
        invariant forall i :: start < i < end ==> !records[i].kind.Section?
      {
        end := end + 1;
      }
      ghost var next := end;
      if end < |records| {
        while end > start + 1 && (records[end - 1].kind.Blank? || records[end - 1].kind.Comment?)
          invariant start + 1 <= end <= next
          invariant forall i :: end <= i < next ==> records[i].kind.Blank? || records[i].kind.Comment?
        {
          end := end - 1;
        }
      }
      assert NextHeader(records, end, next);
    }
  }

  lemma HeaderKnown(rs: Records, s: string)
    ensures s in SectionIndex(rs, |rs|) <==> HasHeader(rs, s)
  {
    hide SectionIndex;
    SectionIndexIsLast(rs, |rs|, s);
  }

  lemma PositionInRange(rs: Records, s: string, pos: nat)
    requires InsertAt(rs, s, pos)
    ensures pos <= |rs|
  {
  }

  /** What `remove_section` leaves of a named section and of the others. */
  lemma SectionRemoved(rs: Records, s: string, start: nat, end: nat)
    requires WellFormed(rs) && Block(rs, s, start, end)
    ensures forall s', k :: s' != s ==> Lookup(Cut(rs, start, end), s', k) == Lookup(rs, s', k)
    ensures forall k :: Lookup(Cut(rs, start, end), s, k) == Lookup(rs[..start], s, k)
    ensures HasHeader(Cut(rs, start, end), s) <==> HasHeader(rs[..start], s)
  {
    hide Lookup, WellFormedFrom;
    forall s', k | s' != s
      ensures Lookup(Cut(rs, start, end), s', k) == Lookup(rs, s', k)
    {
      OtherSections(rs, s, start, end, s', k);
    }
    forall k
      ensures Lookup(Cut(rs, start, end), s, k) == Lookup(rs[..start], s, k)
    {
      SectionKeys(rs, s, start, end, k);
    }
    var a, b := rs[..start], rs[end..];
    forall i | 0 <= i < |b|
      ensures !(b[i].kind.Section? && b[i].section == s)
    {
      assert b[i] == rs[end + i];
    }
    if HasHeader(a + b, s) {
      var i :| 0 <= i < |a + b| && (a + b)[i].kind.Section? && (a + b)[i].section == s;
      assert i < |a| && a[i] == (a + b)[i];
    }
    if HasHeader(a, s) {
      var i :| 0 <= i < |a| && a[i].kind.Section? && a[i].section == s;
      assert (a + b)[i] == a[i];
    }
  }

  predicate IsHeader(r: LineRecord, s: string) {
    r.kind.Section? && r.section == s
  }

  lemma EarlierHeader(rs: Records, s: string, start: nat)
    requires LastHeader(rs, |rs|, s, Some(start))
    ensures HasHeader(rs[..start], s) <==> HeaderTwice(rs, s)
  {
    if HasHeader(rs[..start], s) {
      var i :| 0 <= i < |rs[..start]| && rs[..start][i].kind.Section? && rs[..start][i].section == s;
      assert IsHeader(rs[i], s) && IsHeader(rs[start], s);
    }
    if i, j :| 0 <= i < j < |rs| && IsHeader(rs[i], s) && IsHeader(rs[j], s) {
      assert j <= start;
      assert rs[..start][i].kind.Section? && rs[..start][i].section == s;
    }
  }

  /** The section is gone exactly when it had one header; with two, keys of the first remain. */
  lemma RepeatedSectionRemains()
    ensures var rs := [NewHeader("s", "\n"), NewKey("s", "k", "v", "\n"), NewHeader("s", "\n")];
            && WellFormed(rs) && Block(rs, "s", 2, 3)
            && HasHeader(Cut(rs, 2, 3), "s") && Lookup(Cut(rs, 2, 3), "s", "k") == Some("v")
  {
    var header, key := NewHeader("s", "\n"), NewKey("s", "k", "v", "\n");
    var rs := [header, key, header];
    assert rs == [header] + ([key] + [header]);
    OneOtherWellFormed("", header);
    OneKeyWellFormed("s", key);
    OneOtherWellFormed("s", header);
    WellFormedAppend("s", [key], [header]);
    WellFormedAppend("", [header], [key] + [header]);
    assert NextHeader(rs, 3, 3);
    var left := Cut(rs, 2, 3);
    assert left == [header] + [key];
    LookupAppend([header], [key], "s", "k");
    LookupOne(key, "s", "k");
    assert left[0].kind.Section? && left[0].section == "s";
  }
}
