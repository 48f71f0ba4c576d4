/**
  The line records of a format-preserving INI document: what they say, the indexes built
  from them, and what editing does to both.
 */
module IniRecords {
  import opened Text

  datatype Kind = Blank | Comment | Section | KeyValue

  /** One line: what was parsed from it and the pieces it is rebuilt from. */
  datatype LineRecord = LineRecord(
    kind: Kind, section: string, key: string, value: string, raw: string, lineEnding: string,
    keyPrefix: string, keySuffix: string, separator: string, valuePrefix: string, commentSuffix: string,
    quoted: bool, quote: char)

  datatype Line = Line(kind: Kind, section: string, key: string, value: string)

  type Records = seq<LineRecord>

  predicate IsKey(r: LineRecord, s: string, k: string) {
    r.kind.KeyValue? && r.section == s && r.key == k
  }

  // ----------------------------------------------------------------------- what it says

  /** The value of the last line for the key. */
  function Lookup(rs: Records, s: string, k: string): Option<string> {
    if rs == [] then None
    else if IsKey(rs[|rs| - 1], s, k) then Some(rs[|rs| - 1].value)
    else Lookup(rs[..|rs| - 1], s, k)
  }

  ghost predicate HasHeader(rs: Records, s: string) {
    exists i :: 0 <= i < |rs| && rs[i].kind.Section? && rs[i].section == s
  }

  /** The section in force after the lines, having started in `current`. */
  function InForce(current: string, rs: Records): string {
    if rs == [] then current
    else if rs[|rs| - 1].kind.Section? then rs[|rs| - 1].section
    else InForce(current, rs[..|rs| - 1])
  }

  /** Every key line names the header above it, or `current` before the first header. */
  ghost predicate WellFormedFrom(current: string, rs: Records) {
    forall i :: 0 <= i < |rs| && rs[i].kind.KeyValue? ==> rs[i].section == InForce(current, rs[..i])
  }

  ghost predicate WellFormed(rs: Records) {
    WellFormedFrom("", rs)
  }

  lemma {:induction false} LookupAppend(a: Records, b: Records, s: string, k: string)
    ensures Lookup(a + b, s, k) == if Lookup(b, s, k).Some? then Lookup(b, s, k) else Lookup(a, s, k)
    decreases |b|
  {
    if b == [] {
      assert a + b == a;
    } else {
      var init := b[..|b| - 1];
      assert (a + b)[..|a + b| - 1] == a + init;
      LookupAppend(a, init, s, k);
    }
  }

  lemma LookupOne(r: LineRecord, s: string, k: string)
    ensures Lookup([r], s, k) == if IsKey(r, s, k) then Some(r.value) else None
  {
    assert [r][..0] == [];
  }

  lemma {:induction false} LookupNone(rs: Records, s: string, k: string)
    requires forall i :: 0 <= i < |rs| ==> !IsKey(rs[i], s, k)
    ensures Lookup(rs, s, k) == None
    decreases |rs|
  {
    if rs != [] {
      LookupNone(rs[..|rs| - 1], s, k);
    }
  }

  lemma {:induction false} InForceAppend(current: string, a: Records, b: Records)
    ensures InForce(current, a + b) == InForce(InForce(current, a), b)
    decreases |b|
  {
    if b == [] {
      assert a + b == a;
    } else {
      var init := b[..|b| - 1];
      assert (a + b)[..|a + b| - 1] == a + init;
      InForceAppend(current, a, init);
    }
  }

  lemma {:induction false} InForceNoHeader(current: string, rs: Records)
    requires forall i :: 0 <= i < |rs| ==> !rs[i].kind.Section?
    ensures InForce(current, rs) == current
    decreases |rs|
  {
    if rs != [] {
      InForceNoHeader(current, rs[..|rs| - 1]);
    }
  }

  lemma WellFormedAppend(current: string, a: Records, b: Records)
    ensures WellFormedFrom(current, a + b) <==> WellFormedFrom(current, a) && WellFormedFrom(InForce(current, a), b)
  {
    forall i | 0 <= i < |a|
      ensures (a + b)[i] == a[i] && (a + b)[..i] == a[..i]
    {
    }
    forall i | 0 <= i < |b|
      ensures (a + b)[|a| + i] == b[i] && InForce(current, (a + b)[..|a| + i]) == InForce(InForce(current, a), b[..i])
    {
      assert (a + b)[..|a| + i] == a + b[..i];
      InForceAppend(current, a, b[..i]);
    }
    if WellFormedFrom(current, a) && WellFormedFrom(InForce(current, a), b) {
      forall i | 0 <= i < |a + b| && (a + b)[i].kind.KeyValue?
        ensures (a + b)[i].section == InForce(current, (a + b)[..i])
      {
        if i >= |a| {
          assert (a + b)[|a| + (i - |a|)] == b[i - |a|];
        }
      }
    }
    if WellFormedFrom(current, a + b) {
      forall i | 0 <= i < |b| && b[i].kind.KeyValue?
        ensures b[i].section == InForce(InForce(current, a), b[..i])
      {
        assert (a + b)[|a| + i].kind.KeyValue?;
      }
    }
  }

  /** Lines that start with no key before a header do not depend on the section in force. */
  lemma WellFormedAnywhere(current: string, other: string, rs: Records, n: nat)
    requires n <= |rs| && (n < |rs| ==> rs[n].kind.Section?)
    requires forall i :: 0 <= i < n ==> !rs[i].kind.KeyValue?
    requires WellFormedFrom(current, rs)
    ensures WellFormedFrom(other, rs)
  {
    forall i | 0 <= i < |rs| && rs[i].kind.KeyValue?
      ensures rs[i].section == InForce(other, rs[..i])
    {
      assert i > n;
      assert rs[..i] == rs[..n + 1] + rs[n + 1..i];
      InForceAppend(current, rs[..n + 1], rs[n + 1..i]);
      InForceAppend(other, rs[..n + 1], rs[n + 1..i]);
    }
  }

  // -------------------------------------------------------------------------- the indexes

  function View(r: LineRecord): Line {
    Line(r.kind, r.section, r.key, r.value)
  }

  function Views(rs: Records): (v: seq<Line>)
    ensures |v| == |rs|
  {
    seq(|rs|, i requires 0 <= i < |rs| => View(rs[i]))
  }

  /** The last header of each section. */
  function SectionIndex(rs: Records, n: nat): map<string, nat>
    requires n <= |rs|
  {
    if n == 0 then map[]
    else if rs[n - 1].kind.Section? then SectionIndex(rs, n - 1)[rs[n - 1].section := n - 1]
    else SectionIndex(rs, n - 1)
  }

  function Inner(index: map<string, map<string, nat>>, s: string): map<string, nat> {
    if s in index then index[s] else map[]
  }

  /** The last line of each key of each section. */
  function KeyIndex(rs: Records, n: nat): map<string, map<string, nat>>
    requires n <= |rs|
  {
    if n == 0 then map[]
    else
      var index := KeyIndex(rs, n - 1);
      var r := rs[n - 1];
      if r.kind.KeyValue? then index[r.section := Inner(index, r.section)[r.key := n - 1]] else index
  }

  function FindKey(index: map<string, map<string, nat>>, s: string, k: string): Option<nat> {
    if s in index && k in index[s] then Some(index[s][k]) else None
  }

  /** The index leads to the last line for a key, and to nothing when there is none. */
  ghost predicate LastKey(rs: Records, n: nat, s: string, k: string, found: Option<nat>)
    requires n <= |rs|
  {
    match found
    case None => forall i :: 0 <= i < n ==> !IsKey(rs[i], s, k)
    case Some(i) => i < n && IsKey(rs[i], s, k) && forall j :: i < j < n ==> !IsKey(rs[j], s, k)
  }

  ghost predicate LastHeader(rs: Records, n: nat, s: string, found: Option<nat>)
    requires n <= |rs|
  {
    match found
    case None => forall i :: 0 <= i < n ==> !(rs[i].kind.Section? && rs[i].section == s)
    case Some(i) => i < n && rs[i].kind.Section? && rs[i].section == s
                    && forall j :: i < j < n ==> !(rs[j].kind.Section? && rs[j].section == s)
  }

  lemma {:induction false} KeyIndexIsLast(rs: Records, n: nat, s: string, k: string)
    requires n <= |rs|
    ensures LastKey(rs, n, s, k, FindKey(KeyIndex(rs, n), s, k))
  {
    if n > 0 {
      KeyIndexIsLast(rs, n - 1, s, k);
    }
  }

  lemma {:induction false} KeyIndexSections(rs: Records, n: nat, s: string)
    requires n <= |rs|
    ensures s in KeyIndex(rs, n) <==> exists i :: 0 <= i < n && rs[i].kind.KeyValue? && rs[i].section == s
  {
    if n > 0 {
      KeyIndexSections(rs, n - 1, s);
    }
  }

  function FindHeader(index: map<string, nat>, s: string): Option<nat> {
    if s in index then Some(index[s]) else None
  }

  lemma {:induction false} SectionIndexIsLast(rs: Records, n: nat, s: string)
    requires n <= |rs|
    ensures LastHeader(rs, n, s, FindHeader(SectionIndex(rs, n), s))
  {
    if n > 0 {
      SectionIndexIsLast(rs, n - 1, s);
    }
  }

  lemma {:induction false} LastKeyLookup(rs: Records, s: string, k: string, found: Option<nat>)
    requires LastKey(rs, |rs|, s, k, found)
    ensures Lookup(rs, s, k) == if found.None? then None else Some(rs[found.value].value)
    decreases |rs|
  {
    if found.None? {
      LookupNone(rs, s, k);
    } else if found.value < |rs| - 1 {
      LastKeyLookup(rs[..|rs| - 1], s, k, found);
    }
  }

  /** Looking up through the index is looking for the last line. */
  lemma IndexedLookup(rs: Records, s: string, k: string)
    ensures var found := FindKey(KeyIndex(rs, |rs|), s, k);
            && LastKey(rs, |rs|, s, k, found)
            && Lookup(rs, s, k) == if found.None? then None else Some(rs[found.value].value)
  {
    KeyIndexIsLast(rs, |rs|, s, k);
    LastKeyLookup(rs, s, k, FindKey(KeyIndex(rs, |rs|), s, k));
  }

  /** Changing a value leaves both indexes as they are. */
  lemma {:induction false} IndexesIgnoreValues(rs: Records, ts: Records, n: nat)
    requires |rs| == |ts| && n <= |rs|
    requires forall i :: 0 <= i < |rs| ==> rs[i].kind == ts[i].kind && rs[i].section == ts[i].section && rs[i].key == ts[i].key
    ensures KeyIndex(rs, n) == KeyIndex(ts, n) && SectionIndex(rs, n) == SectionIndex(ts, n)
  {
    if n > 0 {
      IndexesIgnoreValues(rs, ts, n - 1);
    }
  }

  // ----------------------------------------------------------------------------- editing

  /** The raw text of a key line, from its pieces. */
  function Rebuilt(r: LineRecord, value: string): string {
    r.keyPrefix + r.key + r.keySuffix + r.separator + r.valuePrefix
    + (if r.quoted then [r.quote] + value + [r.quote] else value) + r.commentSuffix
  }

  function NewKey(s: string, k: string, v: string, newline: string): LineRecord {
    LineRecord(KeyValue, s, k, v, k + " = " + v, newline, "", " ", "=", " ", "", false, '"')
  }

  function NewHeader(s: string, newline: string): LineRecord {
    LineRecord(Section, s, "", "", "[" + s + "]", newline, "", "", "", "", "", false, '"')
  }

  /** A rebuilt line keeps everything around the value: what stands before it, its quotes, and the comment behind it. */
  lemma RebuiltText(r: LineRecord, value: string)
    ensures var raw, head := Rebuilt(r, value), r.keyPrefix + r.key + r.keySuffix + r.separator + r.valuePrefix;
            var at := |head| + if r.quoted then 1 else 0;
            var end := |raw| - |r.commentSuffix|;
            && end == at + |value| + (if r.quoted then 1 else 0) && raw[..|head|] == head
            && raw[at..at + |value|] == value && raw[end..] == r.commentSuffix
            && (r.quoted ==> raw[|head|] == r.quote && raw[end - 1] == r.quote)
  {
  }

  /** A line added for a new key is what setting its value again rebuilds. */
  lemma NewKeyRebuilt(s: string, k: string, v: string, newline: string)
    ensures Rebuilt(NewKey(s, k, v, newline), v) == NewKey(s, k, v, newline).raw == k + " = " + v
  {
    var r := NewKey(s, k, v, newline);
    assert r.keyPrefix + r.key + r.keySuffix + r.separator + r.valuePrefix == k + " = ";
    assert k + " = " + v + "" == k + " = " + v;
  }

  function NewBlank(newline: string): LineRecord {
    LineRecord(Blank, "", "", "", "", newline, "", "", "", "", "", false, '"')
  }

  /** A new header at the end, set off by a blank line from a last line that has text. */
  function WithHeader(rs: Records, s: string, newline: string): Records {
    rs + (if rs != [] && rs[|rs| - 1].raw != [] then [NewBlank(newline)] else []) + [NewHeader(s, newline)]
  }

  /** `pos` is the end of the block in which new keys of `s` go. */
  ghost predicate InsertAt(rs: Records, s: string, pos: nat) {
    && pos <= |rs| && (pos < |rs| ==> rs[pos].kind.Section?)
    && if s == "" then forall i :: 0 <= i < pos ==> !rs[i].kind.Section?
       else exists h: nat :: LastHeader(rs, |rs|, s, Some(h)) && h < pos && forall i :: h < i < pos ==> !rs[i].kind.Section?
  }

  lemma InForceAt(rs: Records, s: string, pos: nat)
    requires InsertAt(rs, s, pos)
    ensures InForce("", rs[..pos]) == s
  {
    if s == "" {
      InForceNoHeader("", rs[..pos]);
    } else {
      var h: nat :| LastHeader(rs, |rs|, s, Some(h)) && h < pos && forall i :: h < i < pos ==> !rs[i].kind.Section?;
      assert rs[..pos] == rs[..h + 1] + rs[h + 1..pos];
      InForceAppend("", rs[..h + 1], rs[h + 1..pos]);
      InForceNoHeader(s, rs[h + 1..pos]);
    }
  }

  function Inserted(rs: Records, pos: nat, r: LineRecord): Records
    requires pos <= |rs|
  {
    rs[..pos] + [r] + rs[pos..]
  }

  /** A new key line in its block: well formed, found, and nothing else moved in meaning. */
  lemma InsertedKey(rs: Records, s: string, k: string, v: string, newline: string, pos: nat)
    requires WellFormed(rs) && InsertAt(rs, s, pos) && Lookup(rs, s, k) == None
    ensures var ts := Inserted(rs, pos, NewKey(s, k, v, newline));
            && WellFormed(ts) && Lookup(ts, s, k) == Some(v)
            && forall s', k' :: (s', k') != (s, k) ==> Lookup(ts, s', k') == Lookup(rs, s', k')
  {
    hide Lookup, WellFormedFrom, InForce;
    var a, b, r := rs[..pos], rs[pos..], NewKey(s, k, v, newline);
    assert rs == a + b;
    InForceAt(rs, s, pos);
    WellFormedAppend("", a, b);
    WellFormedAppend("", a, [r]);
    WellFormedAppend("", a + [r], b);
    OneKeyWellFormed(s, r);
    InForceAppend("", a, [r]);
    LookupAppend(a, b, s, k);
    LookupAppend(a + [r], b, s, k);
    LookupAppend(a, [r], s, k);
    LookupOne(r, s, k);
    forall s', k' | (s', k') != (s, k)
      ensures Lookup(a + [r] + b, s', k') == Lookup(rs, s', k')
    {
      LookupAppend(a, b, s', k');
      LookupAppend(a + [r], b, s', k');
      LookupAppend(a, [r], s', k');
      LookupOne(r, s', k');
    }
  }

  lemma OneKeyWellFormed(current: string, r: LineRecord)
    requires r.kind.KeyValue? && r.section == current
    ensures WellFormedFrom(current, [r]) && InForce(current, [r]) == current
  {
    assert [r][..0] == [];
  }

  lemma OneOtherWellFormed(current: string, r: LineRecord)
    requires !r.kind.KeyValue?
    ensures WellFormedFrom(current, [r]) && InForce(current, [r]) == if r.kind.Section? then r.section else current
  {
    assert [r][..0] == [];
  }

  /** The header is added without touching any lookup; the block is then open at the end. */
  lemma HeaderAdded(rs: Records, s: string, newline: string)
    requires WellFormed(rs) && s != ""
    ensures var ts := WithHeader(rs, s, newline);
            && WellFormed(ts) && InsertAt(ts, s, |ts|) && rs <= ts
            && forall s', k' :: Lookup(ts, s', k') == Lookup(rs, s', k')
  {
    hide Lookup, WellFormedFrom, InForce;
    var gap := if rs != [] && rs[|rs| - 1].raw != [] then [NewBlank(newline)] else [];
    var header, blank := NewHeader(s, newline), NewBlank(newline);
    var ts := rs + gap + [header];
    OneOtherWellFormed(InForce("", rs), blank);
    WellFormedAppend("", rs, gap);
    assert rs + [] == rs;
    OneOtherWellFormed(InForce("", rs + gap), header);
    WellFormedAppend("", rs + gap, [header]);
    assert LastHeader(ts, |ts|, s, Some(|ts| - 1));
    forall s', k'
      ensures Lookup(ts, s', k') == Lookup(rs, s', k')
    {
      LookupAppend(rs + gap, [header], s', k');
      LookupAppend(rs, gap, s', k');
      LookupOne(header, s', k');
      LookupOne(blank, s', k');
    }
  }

  /** A key line with another value. */
  lemma {:induction false} UpdatedKey(rs: Records, i: nat, r: LineRecord)
    requires WellFormed(rs) && i < |rs| && IsKey(rs[i], r.section, r.key) && r.kind.KeyValue?
    requires forall j :: i < j < |rs| ==> !IsKey(rs[j], r.section, r.key)
    ensures WellFormed(rs[i := r]) && Lookup(rs[i := r], r.section, r.key) == Some(r.value)
    ensures forall s', k' :: (s', k') != (r.section, r.key) ==> Lookup(rs[i := r], s', k') == Lookup(rs, s', k')
  {
    hide Lookup, WellFormedFrom, InForce;
    var a, b := rs[..i], rs[i + 1..];
    assert rs == a + [rs[i]] + b && rs[i := r] == a + [r] + b;
    WellFormedAppend("", a + [rs[i]], b);
    WellFormedAppend("", a, [rs[i]]);
    WellFormedAppend("", a + [r], b);
    WellFormedAppend("", a, [r]);
    InForceAppend("", a, [rs[i]]);
    InForceAppend("", a, [r]);
    OneKeyForce(InForce("", a), rs[i]);
    OneKeyWellFormed(r.section, r);
    LookupNone(b, r.section, r.key);
    LookupAppend(a + [r], b, r.section, r.key);
    LookupAppend(a, [r], r.section, r.key);
    LookupOne(r, r.section, r.key);
    forall s', k' | (s', k') != (r.section, r.key)
      ensures Lookup(rs[i := r], s', k') == Lookup(rs, s', k')
    {
      LookupAppend(a + [r], b, s', k');
      LookupAppend(a, [r], s', k');
      LookupOne(r, s', k');
      LookupAppend(a + [rs[i]], b, s', k');
      LookupAppend(a, [rs[i]], s', k');
      LookupOne(rs[i], s', k');
    }
  }

  /** A lone key line: what its being well formed says. */
  lemma OneKeyForce(current: string, r: LineRecord)
    requires r.kind.KeyValue?
    ensures WellFormedFrom(current, [r]) <==> r.section == current
    ensures InForce(current, [r]) == current
  {
    assert [r][..0] == [];
    if WellFormedFrom(current, [r]) {
      assert [r][0].section == InForce(current, [r][..0]);
    }
  }

  // ---------------------------------------------------------------------------- removing

  /** Lines cut out of the middle. */
  function Cut(rs: Records, start: nat, end: nat): Records
    requires start <= end <= |rs|
  {
    rs[..start] + rs[end..]
  }

  /** Removing the last line of a key uncovers the line before it, if there is one. */
  lemma RemovedKey(rs: Records, i: nat)
    requires WellFormed(rs) && i < |rs| && rs[i].kind.KeyValue?
    requires forall j :: i < j < |rs| ==> !IsKey(rs[j], rs[i].section, rs[i].key)
    ensures WellFormed(Cut(rs, i, i + 1))
    ensures Lookup(Cut(rs, i, i + 1), rs[i].section, rs[i].key) == Lookup(rs[..i], rs[i].section, rs[i].key)
    ensures forall s', k' :: (s', k') != (rs[i].section, rs[i].key) ==> Lookup(Cut(rs, i, i + 1), s', k') == Lookup(rs, s', k')
  {
    hide Lookup, WellFormedFrom, InForce;
    var a, b, r := rs[..i], rs[i + 1..], rs[i];
    assert rs == a + [r] + b;
    WellFormedAppend("", a + [r], b);
    WellFormedAppend("", a, [r]);
    WellFormedAppend("", a, b);
    InForceAppend("", a, [r]);
    OneKeyForce(InForce("", a), r);
    LookupNone(b, r.section, r.key);
    LookupAppend(a, b, r.section, r.key);
    forall s', k' | (s', k') != (r.section, r.key)
      ensures Lookup(a + b, s', k') == Lookup(rs, s', k')
    {
      LookupAppend(a, b, s', k');
      LookupAppend(a + [r], b, s', k');
      LookupAppend(a, [r], s', k');
      LookupOne(r, s', k');
    }
  }

  /** `start` is the last header of `s` and `end` closes its block, short of trailing remarks. */
  ghost predicate Block(rs: Records, s: string, start: nat, end: nat) {
    && LastHeader(rs, |rs|, s, Some(start)) && start < end <= |rs|
    && (forall i :: start < i < end ==> !rs[i].kind.Section?)
    && exists next: nat :: NextHeader(rs, end, next)
  }

  /** From `end` only blank lines and comments come before the next header or the end. */
  ghost predicate NextHeader(rs: Records, end: nat, next: nat) {
    && end <= next <= |rs| && (next < |rs| ==> rs[next].kind.Section?)
    && forall i :: end <= i < next ==> rs[i].kind.Blank? || rs[i].kind.Comment?
  }

  lemma BlockKeys(rs: Records, s: string, start: nat, end: nat, i: nat)
    requires WellFormed(rs) && Block(rs, s, start, end) && start < i < end && rs[i].kind.KeyValue?
    ensures rs[i].section == s
  {
    assert rs[..i] == rs[..start + 1] + rs[start + 1..i];
    InForceAppend("", rs[..start + 1], rs[start + 1..i]);
    InForceNoHeader(s, rs[start + 1..i]);
  }

  lemma OtherSections(rs: Records, s: string, start: nat, end: nat, s': string, k': string)
    requires WellFormed(rs) && Block(rs, s, start, end) && s' != s
    ensures Lookup(Cut(rs, start, end), s', k') == Lookup(rs, s', k')
  {
    hide Lookup, WellFormedFrom, InForce;
    var a, m, b := rs[..start], rs[start..end], rs[end..];
    assert rs == a + m + b;
    forall i | 0 <= i < |m|
      ensures !IsKey(m[i], s', k')
    {
      NotInBlock(rs, s, start, end, start + i, s', k');
    }
    LookupNone(m, s', k');
    LookupAppend(a, b, s', k');
    LookupAppend(a + m, b, s', k');
    LookupAppend(a, m, s', k');
  }

  lemma NotInBlock(rs: Records, s: string, start: nat, end: nat, i: nat, s': string, k': string)
    requires WellFormed(rs) && Block(rs, s, start, end) && s' != s && start <= i < end
    ensures !IsKey(rs[i], s', k')
  {
    if i > start && rs[i].kind.KeyValue? {
      BlockKeys(rs, s, start, end, i);
    }
  }

  /** Cutting a block out keeps every remaining key under its header. */
  lemma CutWellFormed(rs: Records, s: string, start: nat, end: nat)
    requires WellFormed(rs) && Block(rs, s, start, end)
    ensures WellFormed(Cut(rs, start, end))
  {
    hide WellFormedFrom, InForce;
    var a, m, b := rs[..start], rs[start..end], rs[end..];
    assert rs == a + m + b;
    WellFormedAppend("", a + m, b);
    WellFormedAppend("", a, m);
    WellFormedAppend("", a, b);
    var next: nat :| NextHeader(rs, end, next);
    WellFormedAnywhere(InForce("", a + m), InForce("", a), b, next - end);
  }

  /** The section's keys are gone with its block exactly as far as no earlier header has them. */
  lemma SectionKeys(rs: Records, s: string, start: nat, end: nat, k: string)
    requires WellFormed(rs) && Block(rs, s, start, end)
    ensures Lookup(Cut(rs, start, end), s, k) == Lookup(rs[..start], s, k)
  {
    hide Lookup;
    var b := rs[end..];
    forall i | 0 <= i < |b|
      ensures !IsKey(b[i], s, k)
    {
      AfterBlock(rs, s, start, end, end + i, k);
    }
    LookupNone(b, s, k);
    LookupAppend(rs[..start], b, s, k);
  }

  /** No key of `s` follows the block of its last header. */
  lemma AfterBlock(rs: Records, s: string, start: nat, end: nat, i: nat, k: string)
    requires WellFormed(rs) && Block(rs, s, start, end) && end <= i < |rs|
    ensures !IsKey(rs[i], s, k)
  {
    hide WellFormedFrom, InForce, Lookup;
    var next: nat :| NextHeader(rs, end, next);
    if rs[i].kind.KeyValue? {
      var j := HeaderInForce("", rs, next, i);
      KeyUnderHeader(rs, i);
    }
  }

  lemma KeyUnderHeader(rs: Records, i: nat)
    requires WellFormed(rs) && i < |rs| && rs[i].kind.KeyValue?
    ensures rs[i].section == InForce("", rs[..i])
  {
  }

  /** Past a header, the section in force is that of some header from it on. */
  lemma {:induction false} HeaderInForce(current: string, rs: Records, n: nat, i: nat) returns (j: nat)
    requires n < i <= |rs| && rs[n].kind.Section?
    ensures n <= j < i && rs[j].kind.Section? && rs[j].section == InForce(current, rs[..i])
    decreases i
  {
    assert rs[..i][..i - 1] == rs[..i - 1];
    if rs[i - 1].kind.Section? {
      j := i - 1;
    } else {
      j := HeaderInForce(current, rs, n, i - 1);
    }
  }

  predicate IsGlobalKey(r: LineRecord) {
    r.kind.KeyValue? && r.section == ""
  }

  function WithoutGlobals(rs: Records): Records {
    if rs == [] then []
    else WithoutGlobals(rs[..|rs| - 1]) + if IsGlobalKey(rs[|rs| - 1]) then [] else [rs[|rs| - 1]]
  }

  /** The global keys go; headers, other keys and remarks stay as they were. */
  lemma {:induction false} GlobalsRemoved(rs: Records)
    requires WellFormed(rs)
    ensures WellFormed(WithoutGlobals(rs)) && InForce("", WithoutGlobals(rs)) == InForce("", rs)
    ensures forall k :: Lookup(WithoutGlobals(rs), "", k) == None
    ensures forall s, k :: s != "" ==> Lookup(WithoutGlobals(rs), s, k) == Lookup(rs, s, k)
    decreases |rs|
  {
    hide Lookup, WellFormedFrom, InForce;
    if rs == [] {
      EmptyDocument();
    } else {
      var init, r := rs[..|rs| - 1], rs[|rs| - 1];
      assert rs == init + [r];
      WellFormedAppend("", init, [r]);
      GlobalsRemoved(init);
      var kept := WithoutGlobals(init);
      InForceAppend("", init, [r]);
      InForceAppend("", kept, [r]);
      WellFormedAppend("", kept, [r]);
      if r.kind.KeyValue? { OneKeyForce(InForce("", init), r); }
      assert kept + [] == kept;
      forall s, k
        ensures Lookup(rs, s, k) == if IsKey(r, s, k) then Some(r.value) else Lookup(init, s, k)
        ensures Lookup(kept + [r], s, k) == if IsKey(r, s, k) then Some(r.value) else Lookup(kept, s, k)
      {
        LookupAppend(init, [r], s, k);
        LookupAppend(kept, [r], s, k);
        LookupOne(r, s, k);
      }
    }
  }

  lemma GlobalsStep(rs: Records, i: nat)
    requires i < |rs|
    ensures WithoutGlobals(rs[..i + 1]) == WithoutGlobals(rs[..i]) + if IsGlobalKey(rs[i]) then [] else [rs[i]]
    ensures |WithoutGlobals(rs[..i])| <= i
  {
    assert rs[..i + 1][..i] == rs[..i];
    ShorterIff(rs[..i]);
  }

  ghost predicate HasGlobal(rs: Records) {
    exists i :: 0 <= i < |rs| && IsGlobalKey(rs[i])
  }

  lemma HasGlobalAppend(rs: Records, r: LineRecord)
    ensures HasGlobal(rs + [r]) <==> HasGlobal(rs) || IsGlobalKey(r)
  {
    var all := rs + [r];
    assert all[|rs|] == r;
    if i :| 0 <= i < |rs| && IsGlobalKey(rs[i]) {
      assert IsGlobalKey(all[i]);
    }
  }

  /** Something is removed exactly when there is a global key. */
  lemma {:induction false} ShorterIff(rs: Records)
    ensures |WithoutGlobals(rs)| <= |rs|
    ensures |WithoutGlobals(rs)| < |rs| <==> HasGlobal(rs)
    ensures |WithoutGlobals(rs)| == |rs| ==> WithoutGlobals(rs) == rs
    decreases |rs|
  {
    if rs != [] {
      var init, r := rs[..|rs| - 1], rs[|rs| - 1];
      assert rs == init + [r];
      HasGlobalAppend(init, r);
      hide HasGlobal, IsGlobalKey;
      ShorterIff(init);
    }
  }

  lemma EmptyDocument()
    ensures WellFormed([]) && forall s, k :: Lookup([], s, k) == None
  {
  }

  /** The distinct keys of a section, by first line. */
  function Keys(rs: Records, n: nat, s: string): seq<string>
    requires n <= |rs|
  {
    if n == 0 then []
    else
      var before, r := Keys(rs, n - 1, s), rs[n - 1];
      if r.kind.KeyValue? && r.section == s && r.key !in before then before + [r.key] else before
  }

  lemma {:induction false} KeysOnce(rs: Records, n: nat, s: string)
    requires n <= |rs|
    ensures forall i, j :: 0 <= i < j < |Keys(rs, n, s)| ==> Keys(rs, n, s)[i] != Keys(rs, n, s)[j]
    ensures forall k :: k in Keys(rs, n, s) <==> Lookup(rs[..n], s, k).Some?
  {
    if n > 0 {
      KeysOnce(rs, n - 1, s);
      var before, r := Keys(rs, n - 1, s), rs[n - 1];
      assert rs[..n][..n - 1] == rs[..n - 1];
      forall k
        ensures Lookup(rs[..n], s, k).Some? <==> IsKey(r, s, k) || k in before
      {
      }
    }
  }
}
