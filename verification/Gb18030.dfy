/**
  The GB18030 range table: code points and four-byte pointers are sampled in increasing
  order, runs are compressed to their starts, and two binary searches interpolate.
 */
module Gb18030 {
  import opened Text

  datatype Sample = Sample(cp: int, pointer: int)

  ghost predicate Increasing(s: seq<Sample>) {
    forall i, j :: 0 <= i < j < |s| ==> s[i].cp < s[j].cp && s[i].pointer < s[j].pointer
  }

  // ------------------------------------------------------------------- deriving ranges

  /** A sample that does not continue the one before it on both sides. */
  predicate Starts(s: seq<Sample>, i: nat)
    requires i < |s|
  {
    i == 0 || s[i].cp != s[i - 1].cp + 1 || s[i].pointer != s[i - 1].pointer + 1
  }

  /** The starting samples among the first `n`. */
  function Ranges(s: seq<Sample>, n: nat): (r: seq<Sample>)
    requires n <= |s|
    ensures |r| <= n && (n > 0 ==> |r| > 0)
  {
    if n == 0 then []
    else if Starts(s, n - 1) then Ranges(s, n - 1) + [s[n - 1]]
    else Ranges(s, n - 1)
  }

  method DeriveRanges(s: seq<Sample>) returns (ranges: seq<Sample>)
    ensures ranges == Ranges(s, |s|)
  {
    ranges := [];
    var previous: Option<Sample> := None;
    var i := 0;
    while i < |s|
      invariant 0 <= i <= |s| && ranges == Ranges(s, i)
      invariant previous == if i == 0 then None else Some(s[i - 1])
    {
      if previous.None? || s[i].cp != previous.value.cp + 1 || s[i].pointer != previous.value.pointer + 1 {
        ranges := ranges + [s[i]];
      }
      previous := Some(s[i]);
      i := i + 1;
    }
  }

  /** The table of a prefix is a prefix of the table. */
  lemma {:induction false} RangesPrefix(s: seq<Sample>, n: nat, m: nat)
    requires n <= m <= |s|
    ensures |Ranges(s, n)| <= |Ranges(s, m)| && Ranges(s, m)[..|Ranges(s, n)|] == Ranges(s, n)
    decreases m
  {
    if n < m {
      RangesPrefix(s, n, m - 1);
    }
  }

  /** The run a sample belongs to. */
  function RunOf(s: seq<Sample>, i: nat): (j: nat)
    requires i < |s|
    ensures j < |Ranges(s, i + 1)|
  {
    |Ranges(s, i + 1)| - 1
  }

  /** A sample lies on the line from the start of its run. */
  lemma {:induction false} OnItsLine(s: seq<Sample>, i: nat)
    requires i < |s| && Increasing(s)
    ensures var start := Ranges(s, i + 1)[RunOf(s, i)];
            && start.cp <= s[i].cp && s[i].pointer - start.pointer == s[i].cp - start.cp
  {
    if !Starts(s, i) {
      OnItsLine(s, i - 1);
    }
  }

  /** In the whole table: the run's start is the last one at or below the sample on both sides. */
  lemma RunInTable(s: seq<Sample>, i: nat)
    requires i < |s| && Increasing(s)
    ensures var r, j := Ranges(s, |s|), RunOf(s, i);
            && j < |r| && r[j].cp <= s[i].cp && s[i].pointer - r[j].pointer == s[i].cp - r[j].cp
            && (j + 1 < |r| ==> r[j + 1].cp > s[i].cp && r[j + 1].pointer > s[i].pointer)
  {
    hide Increasing;
    OnItsLine(s, i);
    RangesPrefix(s, i + 1, |s|);
    var r, j := Ranges(s, |s|), RunOf(s, i);
    assert r[j] == r[..j + 1][j];
    if j + 1 < |r| {
      LaterStart(s, i + 1, |s|, j + 1);
    }
  }

  /** A start beyond the table of the first `n` samples is one of the later samples. */
  lemma {:induction false} LaterStart(s: seq<Sample>, n: nat, m: nat, j: nat)
    requires n <= m <= |s| && Increasing(s) && |Ranges(s, n)| <= j < |Ranges(s, m)|
    ensures exists k :: n <= k < m && Ranges(s, m)[j] == s[k]
    ensures n > 0 ==> Ranges(s, m)[j].cp > s[n - 1].cp && Ranges(s, m)[j].pointer > s[n - 1].pointer
    decreases m
  {
    if j < |Ranges(s, m - 1)| {
      LaterStart(s, n, m - 1, j);
      assert Ranges(s, m)[j] == Ranges(s, m - 1)[j];
    } else {
      assert Ranges(s, m)[j] == s[m - 1];
    }
  }

  /** The table increases on both sides. */
  lemma {:induction false} RangesIncreasing(s: seq<Sample>, n: nat)
    requires n <= |s| && Increasing(s)
    ensures Increasing(Ranges(s, n))
    ensures n < |s| ==> forall j :: 0 <= j < |Ranges(s, n)| ==> Ranges(s, n)[j].cp < s[n].cp && Ranges(s, n)[j].pointer < s[n].pointer
  {
    if n > 0 {
      RangesIncreasing(s, n - 1);
    }
  }

  // ------------------------------------------------------------------------- searching

  /** The last entry whose code point is at most `cp`: `None` before the first. */
  ghost predicate LastByCp(r: seq<Sample>, cp: int, found: Option<nat>) {
    match found
    case None => forall j :: 0 <= j < |r| ==> r[j].cp > cp
    case Some(k) => k < |r| && r[k].cp <= cp && forall j :: k < j < |r| ==> r[j].cp > cp
  }

  ghost predicate LastByPointer(r: seq<Sample>, p: int, found: Option<nat>) {
    match found
    case None => forall j :: 0 <= j < |r| ==> r[j].pointer > p
    case Some(k) => k < |r| && r[k].pointer <= p && forall j :: k < j < |r| ==> r[j].pointer > p
  }

  /** `lookup_pointer_by_cp` as a relation. */
  ghost predicate PointerFor(r: seq<Sample>, cp: int, out: Option<int>) {
    exists found :: LastByCp(r, cp, found)
      && out == match found { case None => None case Some(k) => Some(r[k].pointer + (cp - r[k].cp)) }
  }

  /** What the decoder makes of a pointer in run `k`. */
  function Interpolated(r: seq<Sample>, k: nat, p: int): Option<int>
    requires k < |r|
  {
    var cp := r[k].cp + (p - r[k].pointer);
    if k + 1 < |r| && cp >= r[k + 1].cp then None else Some(cp)
  }

  /** `lookup_cp_by_pointer` as a relation. */
  ghost predicate CodePointFor(r: seq<Sample>, p: int, max: int, out: Option<int>) {
    if p > max then out == None
    else exists k :: 0 <= k < |r| && LastByPointer(r, p, Some(k)) && out == Interpolated(r, k, p)
  }

  method LookupPointerByCp(r: seq<Sample>, cp: int) returns (out: Option<int>)
    requires Increasing(r)
    ensures PointerFor(r, cp, out)
  {
    var lo, hi, ans: Option<nat> := 0, |r| - 1, None;
    while lo <= hi
      invariant 0 <= lo <= hi + 1 <= |r|
      invariant forall j :: hi < j < |r| ==> r[j].cp > cp
      invariant if lo == 0 then ans == None else ans == Some(lo - 1) && r[lo - 1].cp <= cp
      decreases hi - lo
    {
      var mid := (lo + hi) / 2;
      if r[mid].cp <= cp {
        ans := Some(mid);
        lo := mid + 1;
      } else {
        hi := mid - 1;
      }
    }
    assert LastByCp(r, cp, ans);
    if ans.None? {
      return None;
    }
    out := Some(r[ans.value].pointer + (cp - r[ans.value].cp));
  }

  /** The pointer is at or above the first start: below it the search has no answer to use. */
  method LookupCpByPointer(r: seq<Sample>, p: int, max: int) returns (out: Option<int>)
    requires Increasing(r) && (p <= max ==> |r| > 0 && r[0].pointer <= p)
    ensures CodePointFor(r, p, max, out)
  {
    if p > max {
      return None;
    }
    var lo, hi, ans := 0, |r| - 1, 0;
    while lo <= hi
      invariant 0 <= lo <= hi + 1 <= |r|
      invariant forall j :: hi < j < |r| ==> r[j].pointer > p
      invariant ans == (if lo == 0 then 0 else lo - 1) && r[ans].pointer <= p
      decreases hi - lo
    {
      var mid := (lo + hi) / 2;
      if r[mid].pointer <= p {
        ans := mid;
        lo := mid + 1;
      } else {
        hi := mid - 1;
      }
    }
    assert LastByPointer(r, p, Some(ans));
    var cp := r[ans].cp + (p - r[ans].pointer);
    if ans + 1 < |r| && cp >= r[ans + 1].cp {
      return None;
    }
    out := Some(cp);
  }

  // ------------------------------------------------------------------ what the table says

  lemma OnlyLastByCp(r: seq<Sample>, cp: int, j: nat, found: Option<nat>)
    requires Increasing(r) && LastByCp(r, cp, found)
    requires j < |r| && r[j].cp <= cp && (j + 1 < |r| ==> r[j + 1].cp > cp)
    ensures found == Some(j)
  {
  }

  lemma OnlyLastByPointer(r: seq<Sample>, p: int, j: nat, k: nat)
    requires Increasing(r)
    requires j < |r| && r[j].pointer <= p && (j + 1 < |r| ==> r[j + 1].pointer > p)
    ensures LastByPointer(r, p, Some(k)) <==> k == j
  {
  }

  /** What the encoder answers, once the run is known. */
  lemma PointerInRun(r: seq<Sample>, cp: int, j: nat, out: Option<int>)
    requires Increasing(r) && PointerFor(r, cp, out)
    requires j < |r| && r[j].cp <= cp && (j + 1 < |r| ==> r[j + 1].cp > cp)
    ensures out == Some(r[j].pointer + (cp - r[j].cp))
  {
    hide Increasing;
    var found :| LastByCp(r, cp, found) && out == match found { case None => None case Some(k) => Some(r[k].pointer + (cp - r[k].cp)) };
    OnlyLastByCp(r, cp, j, found);
  }

  /** What the decoder answers, once the run is known. */
  lemma CodePointInRun(r: seq<Sample>, p: int, max: int, j: nat, out: Option<int>)
    requires Increasing(r) && p <= max
    requires j < |r| && r[j].pointer <= p && (j + 1 < |r| ==> r[j + 1].pointer > p)
    ensures CodePointFor(r, p, max, out) <==> out == Interpolated(r, j, p)
  {
    hide LastByPointer, Increasing;
    OnlyLastByPointer(r, p, j, j);
    if CodePointFor(r, p, max, out) {
      var k :| 0 <= k < |r| && LastByPointer(r, p, Some(k)) && out == Interpolated(r, k, p);
      OnlyLastByPointer(r, p, j, k);
    }
  }

  /** Encoding a sampled code point gives its pointer. */
  lemma EncodesSamples(s: seq<Sample>, i: nat, out: Option<int>)
    requires Increasing(s) && i < |s| && PointerFor(Ranges(s, |s|), s[i].cp, out)
    ensures out == Some(s[i].pointer)
  {
    hide Ranges, RunOf, Increasing, PointerFor;
    RunInTable(s, i);
    RangesIncreasing(s, |s|);
    PointerInRun(Ranges(s, |s|), s[i].cp, RunOf(s, i), out);
  }

  lemma BelowLast(s: seq<Sample>, i: nat)
    requires Increasing(s) && i < |s|
    ensures s[0].pointer <= s[i].pointer <= LastPointer(s)
  {
    assert i == |s| - 1 || s[i].pointer < s[|s| - 1].pointer;
    assert i == 0 || s[0].pointer < s[i].pointer;
  }

  /** Decoding a sampled pointer gives its code point. */
  lemma DecodesSamples(s: seq<Sample>, i: nat, out: Option<int>)
    requires Increasing(s) && i < |s| && CodePointFor(Ranges(s, |s|), s[i].pointer, LastPointer(s), out)
    ensures out == Some(s[i].cp)
  {
    hide Ranges, RunOf, Increasing, CodePointFor;
    BelowLast(s, i);
    RunInTable(s, i);
    RangesIncreasing(s, |s|);
    CodePointInRun(Ranges(s, |s|), s[i].pointer, LastPointer(s), RunOf(s, i), out);
  }

  /** Each break keeps to the next number on one side. */
  ghost predicate OneSided(s: seq<Sample>) {
    forall i :: 0 < i < |s| ==> s[i].cp == s[i - 1].cp + 1 || s[i].pointer == s[i - 1].pointer + 1
  }

  ghost predicate IsPointer(s: seq<Sample>, p: int) {
    exists i :: 0 <= i < |s| && s[i].pointer == p
  }

  ghost predicate IsCodePoint(s: seq<Sample>, cp: int) {
    exists i :: 0 <= i < |s| && s[i].cp == cp
  }

  /** Every pointer from the first sample on decodes to `None` exactly off the samples. */
  ghost predicate HolesAreNone(s: seq<Sample>) {
    forall p, out :: Decodes(s, p, out) ==> (out.None? <==> !IsPointer(s, p))
  }

  /** The decoder, on the table of `s`, answers `out`. */
  ghost predicate Decodes(s: seq<Sample>, p: int, out: Option<int>) {
    s != [] && s[0].pointer <= p && CodePointFor(Ranges(s, |s|), p, LastPointer(s), out)
  }

  function LastPointer(s: seq<Sample>): int {
    if s == [] then 0 else s[|s| - 1].pointer
  }

  /** The sample at or below a pointer in range. */
  lemma {:induction false} Bracket(s: seq<Sample>, p: int, n: nat) returns (i: nat)
    requires 0 < n <= |s| && s[0].pointer <= p && (n == |s| || p < s[n].pointer)
    ensures i < n && s[i].pointer <= p && (i + 1 == |s| || p < s[i + 1].pointer)
    decreases n
  {
    if s[n - 1].pointer <= p {
      i := n - 1;
    } else {
      i := Bracket(s, p, n - 1);
    }
  }

  /** A sample after a gap in the pointers starts the next run. */
  lemma NextRun(s: seq<Sample>, i: nat)
    requires i + 1 < |s| && Starts(s, i + 1)
    ensures var r, j := Ranges(s, |s|), RunOf(s, i); j + 1 < |r| && r[j + 1] == s[i + 1]
  {
    var r, j := Ranges(s, |s|), RunOf(s, i);
    assert Ranges(s, i + 2) == Ranges(s, i + 1) + [s[i + 1]];
    RangesPrefix(s, i + 2, |s|);
    assert r[j + 1] == r[..j + 2][j + 1];
  }

  /** Between two samples the decoder continues the line of the first. */
  lemma InHole(s: seq<Sample>, i: nat, p: int, out: Option<int>)
    requires Increasing(s) && i + 1 < |s| && s[i].pointer < p < s[i + 1].pointer
    ensures Decodes(s, p, out) <==>
              out == if s[i].cp + (p - s[i].pointer) >= s[i + 1].cp then None else Some(s[i].cp + (p - s[i].pointer))
  {
    assert Starts(s, i + 1);
    hide Ranges, RunOf, Increasing, CodePointFor, Starts;
    RunInTable(s, i);
    RangesIncreasing(s, |s|);
    NextRun(s, i);
    BelowLast(s, i);
    BelowLast(s, i + 1);
    CodePointInRun(Ranges(s, |s|), p, LastPointer(s), RunOf(s, i), out);
  }

  lemma OneSidedHoles(s: seq<Sample>, p: int, out: Option<int>)
    requires Increasing(s) && OneSided(s) && Decodes(s, p, out)
    ensures out.None? <==> !IsPointer(s, p)
  {
    hide Ranges, RunOf, Increasing, CodePointFor;
    if p > LastPointer(s) {
      BeyondLast(s, p, out);
    } else {
      var i := Bracket(s, p, |s|);
      if s[i].pointer == p {
        DecodesSamples(s, i, out);
      } else {
        var next := i + 1;
        InHole(s, i, p, out);
        NoSampleBetween(s, i, p);
        assert s[next].cp == s[next - 1].cp + 1;
      }
    }
  }

  lemma BeyondLast(s: seq<Sample>, p: int, out: Option<int>)
    requires Increasing(s) && Decodes(s, p, out) && p > LastPointer(s)
    ensures out == None && !IsPointer(s, p)
  {
    forall i | 0 <= i < |s|
      ensures s[i].pointer != p
    {
      BelowLast(s, i);
    }
  }

  lemma NoSampleBetween(s: seq<Sample>, i: nat, p: int)
    requires Increasing(s) && i + 1 < |s| && s[i].pointer < p < s[i + 1].pointer
    ensures !IsPointer(s, p)
  {
    forall k | 0 <= k < |s|
      ensures s[k].pointer != p
    {
      assert k < i ==> s[k].pointer < s[i].pointer;
      assert k > i + 1 ==> s[i + 1].pointer < s[k].pointer;
    }
  }

  /** The decoder tells holes from samples exactly when every break is one-sided. */
  lemma HolesAreNoneIff(s: seq<Sample>)
    requires Increasing(s)
    ensures HolesAreNone(s) <==> OneSided(s)
  {
    hide Decodes, Increasing, IsPointer;
    if OneSided(s) {
      forall p, out | Decodes(s, p, out)
        ensures out.None? <==> !IsPointer(s, p)
      {
        OneSidedHoles(s, p, out);
      }
    } else {
      var i :| 0 < i < |s| && s[i].cp != s[i - 1].cp + 1 && s[i].pointer != s[i - 1].pointer + 1;
      var p := s[i - 1].pointer + 1;
      Neighbours(s, i);
      var out := Some(s[i - 1].cp + 1);
      InHole(s, i - 1, p, out);
      NoSampleBetween(s, i - 1, p);
      assert Decodes(s, p, out);
    }
  }

  lemma Neighbours(s: seq<Sample>, i: nat)
    requires Increasing(s) && 0 < i < |s|
    ensures s[i - 1].cp < s[i].cp && s[i - 1].pointer < s[i].pointer
  {
  }

  lemma FirstRange(s: seq<Sample>)
    requires s != []
    ensures |Ranges(s, |s|)| > 0 && Ranges(s, |s|)[0] == s[0]
  {
    assert Ranges(s, 1) == [s[0]];
    RangesPrefix(s, 1, |s|);
    assert Ranges(s, |s|)[0] == Ranges(s, |s|)[..1][0];
  }

  /** Encoding refuses a code point only below the first sample; other gaps get a pointer. */
  lemma EncodeRefusesIff(s: seq<Sample>, cp: int, out: Option<int>)
    requires Increasing(s) && s != [] && PointerFor(Ranges(s, |s|), cp, out)
    ensures out.None? <==> cp < s[0].cp
    ensures out.Some? ==> s[0].pointer <= out.value
  {
    hide Ranges, Increasing;
    FirstRange(s);
    RangesIncreasing(s, |s|);
    RefusesBelowFirst(Ranges(s, |s|), cp, out);
  }

  lemma RefusesBelowFirst(r: seq<Sample>, cp: int, out: Option<int>)
    requires Increasing(r) && r != [] && PointerFor(r, cp, out)
    ensures out.None? <==> cp < r[0].cp
    ensures out.Some? ==> r[0].pointer <= out.value
  {
    var found :| LastByCp(r, cp, found) && out == match found { case None => None case Some(k) => Some(r[k].pointer + (cp - r[k].cp)) };
    if found.Some? && found.value > 0 {
      assert r[0].cp < r[found.value].cp && r[0].pointer < r[found.value].pointer;
    }
  }

  /**
    With one-sided breaks, going through both lookups returns a code point exactly when it
    was sampled.
   */
  lemma RoundTripIff(s: seq<Sample>, cp: int, pointer: int, back: Option<int>)
    requires Increasing(s) && OneSided(s)
    requires s != [] && PointerFor(Ranges(s, |s|), cp, Some(pointer)) && Decodes(s, pointer, back)
    ensures back == Some(cp) <==> IsCodePoint(s, cp)
  {
    hide Ranges, Increasing, OneSided, PointerFor, CodePointFor;
    if i :| 0 <= i < |s| && s[i].cp == cp {
      EncodesSamples(s, i, Some(pointer));
      DecodesSamples(s, i, back);
    } else {
      OneSidedHoles(s, pointer, back);
      if back.Some? {
        var i :| 0 <= i < |s| && s[i].pointer == pointer;
        DecodesSamples(s, i, back);
      }
    }
  }

  /** A gap in the code points is not noticed by the encoder. */
  lemma GapIsNotRefused()
    ensures var s := [Sample(0x80, 0), Sample(0x82, 1)];
            && Increasing(s) && OneSided(s) && !IsCodePoint(s, 0x81)
            && PointerFor(Ranges(s, 2), 0x81, Some(1))
  {
    var s := [Sample(0x80, 0), Sample(0x82, 1)];
    assert Ranges(s, 1) == [s[0]];
    assert Ranges(s, 2) == s;
    assert LastByCp(s, 0x81, Some(0));
  }

  // ----------------------------------------------------------------------------- bytes

  datatype Four = Four(b1: int, b2: int, b3: int, b4: int)

  /** Lead and third byte from 0x81, second and fourth a decimal digit. */
  predicate InBounds(q: Four) {
    && 0x81 <= q.b1 <= 0xFE && 0x30 <= q.b2 <= 0x39 && 0x81 <= q.b3 <= 0xFE && 0x30 <= q.b4 <= 0x39
  }

  function FourBytes(pointer: nat): Four {
    Four(0x81 + pointer / 12600, 0x30 + pointer % 12600 / 1260, 0x81 + pointer % 1260 / 10, 0x30 + pointer % 10)
  }

  function PointerOf(q: Four): int {
    ((q.b1 - 0x81) * 10 + (q.b2 - 0x30)) * 1260 + (q.b3 - 0x81) * 10 + (q.b4 - 0x30)
  }

  /** Packing and the mixed-radix formula are mutually inverse on pointers and byte groups. */
  lemma FourBytesInverse(pointer: nat, q: Four)
    ensures PointerOf(FourBytes(pointer)) == pointer
    ensures InBounds(FourBytes(pointer)) <==> pointer < 126 * 12600
    ensures InBounds(q) ==> 0 <= PointerOf(q) < 126 * 12600 && FourBytes(PointerOf(q)) == q
    ensures InBounds(q) <==> 0x81 <= q.b1 <= 0xFE && 0x30 <= q.b2 <= 0x39 && 0x81 <= q.b3 <= 0xFE && 0x30 <= q.b4 <= 0x39
    ensures PointerOf(q) == 12600 * (q.b1 - 0x81) + 1260 * (q.b2 - 0x30) + 10 * (q.b3 - 0x81) + (q.b4 - 0x30)
  {
    PackFour(pointer);
    if InBounds(q) {
      UnpackFour(q.b1 - 0x81, q.b2 - 0x30, q.b3 - 0x81, q.b4 - 0x30);
    }
  }

  lemma PackFour(pointer: nat)
    ensures PointerOf(FourBytes(pointer)) == pointer
    ensures InBounds(FourBytes(pointer)) <==> pointer < 126 * 12600
  {
    var a, high := pointer / 12600, pointer % 12600;
    var b, low := high / 1260, high % 1260;
    var c, d := low / 10, low % 10;
    Digits(pointer, 10 * a + b, c, d);
  }

  lemma Digits(p: nat, k: nat, c: nat, d: nat)
    requires p == 1260 * k + 10 * c + d && c < 126 && d < 10
    ensures p % 1260 == 10 * c + d && p % 1260 / 10 == c && p % 10 == d
  {
    assert p == 10 * (126 * k + c) + d;
  }

  lemma UnpackFour(a: nat, b: nat, c: nat, d: nat)
    requires a < 126 && b < 10 && c < 126 && d < 10
    ensures var p := (a * 10 + b) * 1260 + c * 10 + d;
            p / 12600 == a && p % 12600 / 1260 == b && p % 1260 / 10 == c && p % 10 == d
  {
    var p := (a * 10 + b) * 1260 + c * 10 + d;
    var low := c * 10 + d;
    assert low < 1260;
    assert p == a * 12600 + (b * 1260 + low) && p % 12600 == b * 1260 + low;
    assert p == (a * 10 + b) * 1260 + low && p % 1260 == low;
  }

  /** Two bytes: the trail skips 0x7F. */
  function TwoBytes(pointer: nat): (int, int) {
    var index := pointer % 190;
    (0x81 + pointer / 190, if index <= 0x7E - 0x40 then 0x40 + index else 0x41 + index)
  }

  function TrailIndex(trail: int): int {
    if trail <= 0x7E then trail - 0x40 else trail - 0x41
  }

  predicate IsTrail(trail: int) {
    0x40 <= trail <= 0x7E || 0x80 <= trail <= 0xFE
  }

  lemma TwoBytesInverse(pointer: nat, lead: int, trail: int)
    ensures var t := TwoBytes(pointer); IsTrail(t.1) && (t.0 - 0x81) * 190 + TrailIndex(t.1) == pointer
    ensures lead >= 0x81 && IsTrail(trail) ==> TwoBytes((lead - 0x81) * 190 + TrailIndex(trail)) == (lead, trail)
  {
  }
}
