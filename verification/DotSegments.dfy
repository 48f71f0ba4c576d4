/**
  Removal of `.` and `..` path segments (section 5.2.4 of RFC 3986), done segment by
  segment with a stack of kept segments.
 */
module DotSegments {
  import opened Text
  import opened Percent

  predicate IsDot(segment: string) {
    segment == "." || segment == ".."
  }

  /** The state of the walk: kept segments and whether the result ends with a slash. */
  datatype Kept = Kept(segments: seq<string>, trailing: bool)

  function Pop(segments: seq<string>): seq<string> {
    if segments == [] then [] else segments[..|segments| - 1]
  }

  function Enter(k: Kept, segment: string, more: bool): Kept {
    if segment == "." then Kept(k.segments, true)
    else if segment == ".." then Kept(Pop(k.segments), true)
    else Kept(k.segments + [segment], more)
  }

  function Walk(rest: string, k: Kept): Kept
    decreases |rest|
  {
    if rest == "" then k
    else
      var slash := IndexOf(rest, '/');
      if slash == |rest| then Enter(k, rest, false)
      else Walk(rest[slash + 1..], Enter(k, rest[..slash], true))
  }

  /** Every segment behind its own slash. */
  function Join(segments: seq<string>): string {
    if segments == [] then "" else Join(segments[..|segments| - 1]) + "/" + segments[|segments| - 1]
  }

  function Render(k: Kept): string {
    var s := Join(k.segments) + (if k.trailing then "/" else "");
    if s == "" then "/" else s
  }

  function Unrooted(path: string): string {
    if path != "" && path[0] == '/' then path[1..] else path
  }

  function RemoveDots(path: string): string {
    Render(Walk(Unrooted(path), Kept([], false)))
  }

  /** All segments of a path: the pieces between slashes, empty ones included. */
  function Segments(s: string): seq<string>
    decreases |s|
  {
    var slash := IndexOf(s, '/');
    if slash == |s| then [s] else [s[..slash]] + Segments(s[slash + 1..])
  }

  /** An absolute path without `.` and `..` segments. */
  predicate IsClean(path: string) {
    path != "" && path[0] == '/' && forall seg :: seg in Segments(path[1..]) ==> !IsDot(seg)
  }

  // ------------------------------------------------------------------------- properties

  lemma JoinSnoc(segments: seq<string>, seg: string)
    ensures Join(segments + [seg]) == Join(segments) + "/" + seg
  {
    assert (segments + [seg])[..|segments|] == segments;
  }

  lemma SegmentsUnfold(s: string)
    ensures var slash := IndexOf(s, '/');
            Segments(s) == if slash == |s| then [s] else [s[..slash]] + Segments(s[slash + 1..])
  {
    hide IndexOf;
  }

  lemma KeptName(k: Kept, seg: string, more: bool)
    requires !IsDot(seg)
    ensures Enter(k, seg, more) == Kept(k.segments + [seg], more)
    ensures Join(k.segments + [seg]) == Join(k.segments) + "/" + seg
  {
    hide Join;
    JoinSnoc(k.segments, seg);
  }

  lemma RenderKept(segments: seq<string>, seg: string)
    ensures Render(Kept(segments + [seg], false)) == Join(segments) + "/" + seg
    ensures Render(Kept(segments + [seg], true)) == Join(segments) + "/" + seg + "/"
  {
    hide Join;
    JoinSnoc(segments, seg);
    assert Join(segments + [seg]) + "" == Join(segments + [seg]);
  }

  /** Walking segments that are all kept rebuilds them. */
  lemma {:induction false} WalkClean(rest: string, k: Kept)
    requires rest != "" && forall seg :: seg in Segments(rest) ==> !IsDot(seg)
    ensures Render(Walk(rest, k)) == Join(k.segments) + "/" + rest
    decreases |rest|
  {
    hide Walk, Segments, IndexOf, Enter, Join, Render, IsDot;
    var slash := IndexOf(rest, '/');
    SegmentsUnfold(rest);
    WalkRest(rest, k);
    if slash == |rest| {
      KeptName(k, rest, false);
      RenderKept(k.segments, rest);
      WalkNothing(Enter(k, rest, false));
    } else {
      var seg, next := rest[..slash], rest[slash + 1..];
      KeptName(k, seg, true);
      RenderKept(k.segments, seg);
      var e := Kept(k.segments + [seg], true);
      if next != "" {
        WalkClean(next, e);
      } else {
        WalkNothing(e);
      }
      SlashBetween(Join(k.segments), rest, slash);
    }
  }

  lemma SlashBetween(j: string, rest: string, slash: nat)
    requires slash < |rest| && rest[slash] == '/'
    ensures j + "/" + rest[..slash] + "/" + rest[slash + 1..] == j + "/" + rest
  {
    assert rest == rest[..slash] + "/" + rest[slash + 1..];
  }

  /** Clean paths are left alone. */
  lemma CleanIsFixed(path: string)
    requires IsClean(path)
    ensures RemoveDots(path) == path
  {
    if path[1..] != "" {
      WalkClean(path[1..], Kept([], false));
      assert path == "" + "/" + path[1..];
    }
  }

  predicate Keepable(segments: seq<string>) {
    forall i :: 0 <= i < |segments| ==> !IsDot(segments[i]) && '/' !in segments[i]
  }

  lemma EnterKeeps(k: Kept, segment: string, more: bool)
    requires Keepable(k.segments) && '/' !in segment
    ensures Keepable(Enter(k, segment, more).segments)
  {
  }

  lemma {:induction false} WalkKeeps(rest: string, k: Kept)
    requires Keepable(k.segments)
    ensures Keepable(Walk(rest, k).segments)
    decreases |rest|
  {
    if rest != "" {
      var slash := IndexOf(rest, '/');
      if slash == |rest| {
        assert rest[..slash] == rest;
        EnterKeeps(k, rest, false);
      } else {
        EnterKeeps(k, rest[..slash], true);
        WalkKeeps(rest[slash + 1..], Enter(k, rest[..slash], true));
      }
    }
  }

  lemma {:induction false} SegmentsSnoc(s: string, tail: string)
    requires '/' !in tail
    ensures Segments(s + "/" + tail) == Segments(s) + [tail]
    decreases |s|
  {
    var t := s + "/" + tail;
    var slash := IndexOf(s, '/');
    assert t[..slash] == s[..slash];
    IndexOfIs(t, '/', slash);
    if slash == |s| {
      assert t[slash + 1..] == tail && s[..slash] == s;
      IndexOfIs(tail, '/', |tail|);
    } else {
      assert t[slash + 1..] == s[slash + 1..] + "/" + tail;
      SegmentsSnoc(s[slash + 1..], tail);
    }
  }

  /** Joined segments are found again by splitting. */
  lemma {:induction false} JoinedSegments(segments: seq<string>)
    requires Keepable(segments) && segments != []
    ensures Join(segments) != "" && Join(segments)[0] == '/' && Segments(Join(segments)[1..]) == segments
  {
    hide Segments, Join;
    var front, last := segments[..|segments| - 1], segments[|segments| - 1];
    JoinSnoc(front, last);
    assert segments == front + [last];
    if front == [] {
      JoinEmpty();
      assert Join(segments) == "/" + last && ("/" + last)[1..] == last;
      IndexOfIs(last, '/', |last|);
      SegmentsUnfold(last);
    } else {
      JoinedSegments(front);
      var j := Join(front);
      assert (j + "/" + last)[1..] == j[1..] + "/" + last;
      SegmentsSnoc(j[1..], last);
    }
  }

  /** The result is absolute and has no dot segment. */
  lemma RemoveDotsClean(path: string)
    ensures IsClean(RemoveDots(path))
  {
    hide Walk, Join, Segments;
    var k := Walk(Unrooted(path), Kept([], false));
    WalkKeeps(Unrooted(path), Kept([], false));
    var root := "/";
    if k.segments == [] {
      assert Join([]) == "" by { JoinEmpty(); }
      assert RemoveDots(path) == root && root[1..] == "";
      SegmentsOfEmpty();
    } else {
      JoinedSegments(k.segments);
      var j := Join(k.segments);
      assert j + "" == j;
      if k.trailing {
        assert (j + root)[1..] == j[1..] + "/" + "";
        SegmentsSnoc(j[1..], "");
      }
    }
  }

  lemma JoinEmpty()
    ensures Join([]) == ""
  {
  }

  lemma SegmentsOfEmpty()
    ensures Segments("") == [""]
  {
  }

  /** Removing dot segments twice changes nothing more. */
  lemma RemoveDotsIdempotent(path: string)
    ensures RemoveDots(RemoveDots(path)) == RemoveDots(path)
  {
    RemoveDotsClean(path);
    CleanIsFixed(RemoveDots(path));
  }

  lemma {:induction false} WalkBytes(rest: string, k: Kept, i: nat, c: char)
    requires i < |Walk(rest, k).segments| && c in Walk(rest, k).segments[i]
    ensures c in rest || exists j :: 0 <= j < |k.segments| && c in k.segments[j]
    decreases |rest|
  {
    if rest != "" {
      var slash := IndexOf(rest, '/');
      if slash < |rest| {
        var e := Enter(k, rest[..slash], true);
        WalkBytes(rest[slash + 1..], e, i, c);
        if j :| 0 <= j < |e.segments| && c in e.segments[j] {
          assert j < |k.segments| ==> c in k.segments[j];
        }
      } else {
        assert i < |k.segments| ==> c in k.segments[i];
      }
    }
  }

  lemma {:induction false} JoinBytes(segments: seq<string>, c: char)
    requires c in Join(segments)
    ensures c == '/' || exists i :: 0 <= i < |segments| && c in segments[i]
  {
    if segments != [] && c in Join(segments[..|segments| - 1]) {
      JoinBytes(segments[..|segments| - 1], c);
      if c != '/' {
        var i :| 0 <= i < |segments| - 1 && c in segments[..|segments| - 1][i];
        assert c in segments[i];
      }
    }
  }

  /** Apart from slashes, every byte of the result comes from the path. */
  lemma RemoveDotsBytes(path: string, c: char)
    requires c in RemoveDots(path)
    ensures c == '/' || c in path
  {
    hide Walk, Join;
    var k := Walk(Unrooted(path), Kept([], false));
    if c != '/' {
      assert c in Join(k.segments);
      JoinBytes(k.segments, c);
      var i :| 0 <= i < |k.segments| && c in k.segments[i];
      WalkBytes(Unrooted(path), Kept([], false), i, c);
    }
  }

  // --------------------------------------------------- together with percent normalisation

  predicate IsNormal(s: string) {
    ValidPercent(s) && Normalize(s) == s
  }

  lemma {:induction false} NormalizeShrinks(s: string)
    requires ValidPercent(s)
    ensures |Normalize(s)| <= |s|
    decreases |s|
  {
    if s == [] {
    } else if s[0] != '%' {
      NormalizeShrinks(s[1..]);
    } else {
      NormalizeShrinks(s[3..]);
    }
  }

  lemma SplitNormal(a: string, b: string)
    ensures IsNormal(a + "/" + b) <==> IsNormal(a) && IsNormal(b)
  {
    hide Normalize, ValidPercent;
    SplitValid(a, '/', b);
    if ValidPercent(a) && ValidPercent(b) {
      SplitNormalize(a, '/', b);
      NormalizeShrinks(a);
      NormalizeShrinks(b);
      var x, y := Normalize(a) + "/" + Normalize(b), a + "/" + b;
      if x == y {
        assert |Normalize(a)| == |a|;
        assert x[..|a|] == Normalize(a) && y[..|a|] == a;
        assert x[|a| + 1..] == Normalize(b) && y[|a| + 1..] == b;
      }
    }
  }

  predicate AllNormal(segments: seq<string>) {
    forall i :: 0 <= i < |segments| ==> IsNormal(segments[i])
  }

  lemma {:induction false} WalkNormal(rest: string, k: Kept)
    requires IsNormal(rest) && AllNormal(k.segments)
    ensures AllNormal(Walk(rest, k).segments)
    decreases |rest|
  {
    hide IsNormal;
    if rest != "" {
      var slash := IndexOf(rest, '/');
      if slash < |rest| {
        assert rest == rest[..slash] + "/" + rest[slash + 1..];
        SplitNormal(rest[..slash], rest[slash + 1..]);
        WalkNormal(rest[slash + 1..], Enter(k, rest[..slash], true));
      }
    }
  }

  lemma {:induction false} JoinNormal(segments: seq<string>)
    requires AllNormal(segments)
    ensures IsNormal(Join(segments))
  {
    if segments != [] {
      JoinNormal(segments[..|segments| - 1]);
      SplitNormal(Join(segments[..|segments| - 1]), segments[|segments| - 1]);
    }
  }

  /** Removing dot segments does not undo percent normalisation. */
  lemma RemoveDotsNormal(path: string)
    requires IsNormal(path)
    ensures IsNormal(RemoveDots(path))
  {
    hide Walk, Join;
    assert IsNormal("");
    if path != "" && path[0] == '/' {
      assert path == "" + "/" + path[1..];
      SplitNormal("", path[1..]);
    }
    WalkNormal(Unrooted(path), Kept([], false));
    var k := Walk(Unrooted(path), Kept([], false));
    JoinNormal(k.segments);
    SplitNormal(Join(k.segments), "");
    SplitNormal("", "");
    assert Join(k.segments) + "/" + "" == Join(k.segments) + "/";
    assert "" + "/" + "" == "/";
    assert Join(k.segments) + "" == Join(k.segments);
  }

  // --------------------------------------------------------------------- rewriting laws

  /** Nothing, or a path that starts with a slash. */
  predicate Rooted(path: string) {
    path == "" || path[0] == '/'
  }

  /** A segment that names something. */
  predicate IsName(segment: string) {
    '/' !in segment && !IsDot(segment)
  }

  /** The state behind the segments of `a` and the slash after them. */
  function Through(a: string, k: Kept): (r: Kept)
    ensures r.trailing
    decreases |a|
  {
    var slash := IndexOf(a, '/');
    if slash == |a| then Enter(k, a, true).(trailing := true)
    else Through(a[slash + 1..], Enter(k, a[..slash], true))
  }

  lemma {:induction false} WalkThrough(a: string, rest: string, k: Kept)
    ensures Walk(a + "/" + rest, k) == Walk(rest, Through(a, k))
    decreases |a|
  {
    var s := a + "/" + rest;
    var slash := IndexOf(a, '/');
    assert s[..slash] == a[..slash];
    IndexOfIs(s, '/', slash);
    if slash == |a| {
      assert a[..slash] == a && s[slash + 1..] == rest;
    } else {
      assert s[slash + 1..] == a[slash + 1..] + "/" + rest;
      WalkThrough(a[slash + 1..], rest, Enter(k, a[..slash], true));
    }
  }

  /** One segment and the slash after it. */
  lemma WalkOver(segment: string, rest: string, k: Kept)
    requires '/' !in segment
    ensures Walk(segment + "/" + rest, k) == Walk(rest, Enter(k, segment, true))
  {
    WalkThrough(segment, rest, k);
    IndexOfIs(segment, '/', |segment|);
  }

  /** One segment at the end. */
  lemma WalkLast(segment: string, k: Kept)
    requires '/' !in segment && segment != ""
    ensures Walk(segment, k) == Enter(k, segment, false)
  {
    IndexOfIs(segment, '/', |segment|);
  }

  /** Where the walk stands behind a path and a slash. */
  function Behind(path: string): Kept {
    if path == "" then Kept([], false) else Through(Unrooted(path), Kept([], false))
  }

  lemma RemoveDotsBehind(path: string, rest: string)
    requires Rooted(path)
    ensures RemoveDots(path + "/" + rest) == Render(Walk(rest, Behind(path)))
  {
    hide Walk, Render, Through;
    if path == "" {
      assert (path + "/" + rest)[1..] == rest;
    } else {
      assert (path + "/" + rest)[1..] == path[1..] + "/" + rest;
      WalkThrough(path[1..], rest, Kept([], false));
    }
  }

  lemma TrailingIsForgotten(rest: string, segments: seq<string>, a: bool, b: bool)
    requires rest != ""
    ensures Walk(rest, Kept(segments, a)) == Walk(rest, Kept(segments, b))
  {
    var slash := IndexOf(rest, '/');
    assert Enter(Kept(segments, a), rest[..slash], true) == Enter(Kept(segments, b), rest[..slash], true);
    assert Enter(Kept(segments, a), rest, false) == Enter(Kept(segments, b), rest, false);
  }

  /** Behind a slash it does not matter whether one more is asked for. */
  lemma SlashOnce(path: string, rest: string)
    requires Rooted(path)
    ensures Render(Walk(rest, Kept(Behind(path).segments, true))) == Render(Walk(rest, Behind(path)))
  {
    hide Through, Join;
    if path == "" {
      JoinEmpty();
      if rest != "" {
        TrailingIsForgotten(rest, [], true, false);
      }
    } else {
      assert Behind(path) == Kept(Behind(path).segments, true);
    }
  }

  /** A path without dot segments is left alone, and a missing slash in front is added. */
  ghost predicate KeepsClean(f: string -> string) {
    && (forall path :: IsClean(path) ==> f(path) == path)
    && (forall path :: (path == "" || path[0] != '/') ==> f(path) == f("/" + path))
  }

  /** A single dot segment goes. */
  ghost predicate DropsDot(f: string -> string) {
    && (forall p, rest {:trigger f(p + "/./" + rest)} :: Rooted(p) ==> f(p + "/./" + rest) == f(p + "/" + rest))
    && (forall p {:trigger f(p + "/.")} :: Rooted(p) ==> f(p + "/.") == f(p + "/"))
  }

  /** A double dot segment goes together with the segment before it. */
  ghost predicate DropsName(f: string -> string) {
    && (forall p, name, rest {:trigger f(p + "/" + name + "/../" + rest)} :: Rooted(p) && IsName(name) ==>
          f(p + "/" + name + "/../" + rest) == f(p + "/" + rest))
    && (forall p, name {:trigger f(p + "/" + name + "/..")} :: Rooted(p) && IsName(name) ==>
          f(p + "/" + name + "/..") == f(p + "/"))
  }

  /** Above the root there is only the root. */
  ghost predicate StaysAtRoot(f: string -> string) {
    (forall rest {:trigger f("/../" + rest)} :: f("/../" + rest) == f("/" + rest)) && f("/..") == f("/")
  }

  /** The laws a removal of dot segments obeys on every path. */
  ghost predicate Laws(f: string -> string) {
    KeepsClean(f) && DropsDot(f) && DropsName(f) && StaysAtRoot(f)
  }

  lemma DotGoes(p: string, rest: string)
    requires Rooted(p)
    ensures RemoveDots(p + "/./" + rest) == RemoveDots(p + "/" + rest)
    ensures RemoveDots(p + "/.") == RemoveDots(p + "/")
  {
    hide RemoveDots, Walk, Render, Behind;
    var k := Behind(p);
    RemoveDotsBehind(p, rest);
    SlashOnce(p, rest);
    RemoveDotsBehind(p, "./" + rest);
    assert p + "/./" + rest == p + "/" + ("./" + rest) && "./" + rest == "." + "/" + rest;
    WalkOver(".", rest, k);
    RemoveDotsBehind(p, "");
    SlashOnce(p, "");
    WalkNothing(Kept(k.segments, true));
    WalkNothing(k);
    RemoveDotsBehind(p, ".");
    assert p + "/." == p + "/" + "." && p + "/" + "" == p + "/";
    WalkLast(".", k);
  }

  lemma WalkNothing(k: Kept)
    ensures Walk("", k) == k
  {
  }

  lemma DotDotTakesName(p: string, name: string, rest: string)
    requires Rooted(p) && IsName(name)
    ensures RemoveDots(p + "/" + name + "/../" + rest) == RemoveDots(p + "/" + rest)
    ensures RemoveDots(p + "/" + name + "/..") == RemoveDots(p + "/")
  {
    hide RemoveDots, Walk, Render, Behind;
    var k := Behind(p);
    var e := Enter(k, name, true);
    assert Pop(e.segments) == k.segments;
    RemoveDotsBehind(p, rest);
    SlashOnce(p, rest);
    RemoveDotsBehind(p, name + "/" + ("../" + rest));
    assert p + "/" + name + "/../" + rest == p + "/" + (name + "/" + ("../" + rest)) && "../" + rest == ".." + "/" + rest;
    WalkOver(name, "../" + rest, k);
    WalkOver("..", rest, e);
    RemoveDotsBehind(p, "");
    SlashOnce(p, "");
    WalkNothing(Kept(k.segments, true));
    WalkNothing(k);
    RemoveDotsBehind(p, name + "/" + "..");
    assert p + "/" + name + "/.." == p + "/" + (name + "/" + "..") && p + "/" + "" == p + "/";
    WalkOver(name, "..", k);
    WalkLast("..", e);
  }

  lemma DotDotAtRoot(rest: string)
    ensures RemoveDots("/../" + rest) == RemoveDots("/" + rest)
    ensures RemoveDots("/..") == RemoveDots("/")
  {
    hide RemoveDots, Walk, Render;
    var k := Behind("");
    RemoveDotsBehind("", rest);
    SlashOnce("", rest);
    RemoveDotsBehind("", "../" + rest);
    assert "/../" + rest == "" + "/" + ("../" + rest) && "../" + rest == ".." + "/" + rest && "" + "/" + rest == "/" + rest;
    WalkOver("..", rest, k);
    RemoveDotsBehind("", "");
    SlashOnce("", "");
    WalkNothing(Kept([], true));
    WalkNothing(k);
    RemoveDotsBehind("", "..");
    assert "/.." == "" + "/" + ".." && "" + "/" + "" == "/";
    WalkLast("..", k);
  }

  /** Removing dot segments obeys the laws. */
  lemma RemoveDotsLaws()
    ensures Laws(RemoveDots)
  {
    hide DropsDot, DropsName, StaysAtRoot;
    RemoveDotsDrops();
    forall path | IsClean(path)
      ensures RemoveDots(path) == path
    {
      CleanIsFixed(path);
    }
    forall path: string | path == "" || path[0] != '/'
      ensures RemoveDots(path) == RemoveDots("/" + path)
    {
      assert ("/" + path)[1..] == path;
    }
  }

  lemma RemoveDotsDrops()
    ensures DropsDot(RemoveDots) && DropsName(RemoveDots) && StaysAtRoot(RemoveDots)
  {
    hide RemoveDots;
    forall p, rest {:trigger RemoveDots(p + "/./" + rest)} | Rooted(p)
      ensures RemoveDots(p + "/./" + rest) == RemoveDots(p + "/" + rest)
    {
      DotGoes(p, rest);
    }
    forall p {:trigger RemoveDots(p + "/.")} | Rooted(p)
      ensures RemoveDots(p + "/.") == RemoveDots(p + "/")
    {
      DotGoes(p, "");
    }
    forall p, name, rest {:trigger RemoveDots(p + "/" + name + "/../" + rest)} | Rooted(p) && IsName(name)
      ensures RemoveDots(p + "/" + name + "/../" + rest) == RemoveDots(p + "/" + rest)
    {
      DotDotTakesName(p, name, rest);
    }
    forall p, name {:trigger RemoveDots(p + "/" + name + "/..")} | Rooted(p) && IsName(name)
      ensures RemoveDots(p + "/" + name + "/..") == RemoveDots(p + "/")
    {
      DotDotTakesName(p, name, "");
    }
    forall rest {:trigger RemoveDots("/../" + rest)}
      ensures RemoveDots("/../" + rest) == RemoveDots("/" + rest)
    {
      DotDotAtRoot(rest);
    }
    DotDotAtRoot("");
  }

  /** The last segment of a clean path and the path before it. */
  lemma {:induction false} LastSegment(p: string) returns (front: string, name: string)
    requires IsClean(p)
    ensures p == front + "/" + name && IsName(name) && (front == "" || IsClean(front))
  {
    var last := |p|;
    while p[last - 1] != '/'
      invariant 0 < last <= |p| && '/' !in p[last..]
      decreases last
    {
      last := last - 1;
    }
    front, name := p[..last - 1], p[last..];
    assert p == front + "/" + name;
    if front == "" {
      assert p[1..] == name;
      IndexOfIs(name, '/', |name|);
      assert Segments(p[1..]) == [name];
    } else {
      assert p[1..] == front[1..] + "/" + name;
      SegmentsSnoc(front[1..], name);
      assert name in Segments(p[1..]);
      forall seg | seg in Segments(front[1..])
        ensures !IsDot(seg)
      {
        assert seg in Segments(p[1..]);
      }
      assert front[0] == p[0];
    }
  }

  lemma CleanLonger(p: string, name: string)
    requires (p == "" || IsClean(p)) && IsName(name)
    ensures IsClean(p + "/" + name)
  {
    var path := p + "/" + name;
    if p == "" {
      assert path[1..] == name;
      IndexOfIs(name, '/', |name|);
      assert Segments(name) == [name];
    } else {
      assert path[1..] == p[1..] + "/" + name && path[0] == p[0];
      SegmentsSnoc(p[1..], name);
    }
  }

  lemma {:induction false} LawsDecide(f: string -> string, p: string, rest: string)
    requires Laws(f) && (p == "" || IsClean(p))
    ensures f(p + "/" + rest) == RemoveDots(p + "/" + rest)
    decreases |p| + |rest|, |rest|
  {
    hide RemoveDots, Segments, IsClean, DropsDot, DropsName, StaysAtRoot;
    var slash := IndexOf(rest, '/');
    var segment := rest[..slash];
    var next := if slash == |rest| then "" else rest[slash + 1..];
    RootedIfClean(p);
    if slash == |rest| {
      assert rest == segment;
    } else {
      assert rest == segment + "/" + next;
    }
    if segment == "." {
      LawsDecide(f, p, next);
      DropDot(f, p, rest, next);
    } else if segment == ".." {
      if p == "" {
        LawsDecide(f, p, next);
        DropDotDot(f, rest, next);
      } else {
        var front, name := LastSegment(p);
        LawsDecide(f, front, next);
        RootedIfClean(front);
        DropName(f, front, name, rest, next);
      }
    } else {
      CleanLonger(p, segment);
      if slash == |rest| {
        CleanIsFixed(p + "/" + rest);
      } else {
        LawsDecide(f, p + "/" + segment, next);
        assert p + "/" + segment + "/" + next == p + "/" + rest;
      }
    }
  }

  lemma RootedIfClean(p: string)
    requires p == "" || IsClean(p)
    ensures Rooted(p)
  {
  }

  lemma DropDot(f: string -> string, p: string, rest: string, next: string)
    requires Laws(f) && Rooted(p) && (rest == "./" + next || (rest == "." && next == ""))
    requires f(p + "/" + next) == RemoveDots(p + "/" + next)
    ensures f(p + "/" + rest) == RemoveDots(p + "/" + rest)
  {
    hide RemoveDots, KeepsClean, DropsName, StaysAtRoot;
    DotGoes(p, next);
    if rest == "." {
      assert p + "/" + rest == p + "/." && p + "/" + next == p + "/";
    } else {
      assert p + "/" + rest == p + "/./" + next;
    }
  }

  lemma DropDotDot(f: string -> string, rest: string, next: string)
    requires Laws(f) && (rest == "../" + next || (rest == ".." && next == ""))
    requires f("" + "/" + next) == RemoveDots("" + "/" + next)
    ensures f("" + "/" + rest) == RemoveDots("" + "/" + rest)
  {
    hide RemoveDots, KeepsClean, DropsName, DropsDot;
    DotDotAtRoot(next);
    assert "" + "/" + next == "/" + next;
    if rest == ".." {
      assert "" + "/" + rest == "/.." && "/" + next == "/";
    } else {
      assert "" + "/" + rest == "/../" + next;
    }
  }

  lemma DropName(f: string -> string, front: string, name: string, rest: string, next: string)
    requires Laws(f) && Rooted(front) && IsName(name) && (rest == "../" + next || (rest == ".." && next == ""))
    requires f(front + "/" + next) == RemoveDots(front + "/" + next)
    ensures f(front + "/" + name + "/" + rest) == RemoveDots(front + "/" + name + "/" + rest)
  {
    hide RemoveDots, KeepsClean, DropsDot, StaysAtRoot, IsName;
    DotDotTakesName(front, name, next);
    if rest == ".." {
      assert front + "/" + name + "/" + rest == front + "/" + name + "/.." && front + "/" + next == front + "/";
    } else {
      assert front + "/" + name + "/" + rest == front + "/" + name + "/../" + next;
    }
  }

  /** The laws leave no choice: whatever obeys them removes dot segments as the walk does. */
  lemma OnlyRemoval(f: string -> string, path: string)
    requires Laws(f)
    ensures f(path) == RemoveDots(path)
  {
    hide RemoveDots, IsClean, DropsDot, DropsName, StaysAtRoot;
    RemoveDotsLaws();
    if path != "" && path[0] == '/' {
      LawsDecide(f, "", path[1..]);
      assert "" + "/" + path[1..] == path;
    } else {
      LawsDecide(f, "", path);
      assert "" + "/" + path == "/" + path;
    }
  }

  // ---------------------------------------------------------------------- scanning form

  method RemoveDotSegments(path: string) returns (output: string)
    ensures output == RemoveDots(path)
    ensures forall f :: Laws(f) ==> output == f(path)
  {
    output := ScanSegments(path);
    forall f | Laws(f)
      ensures output == f(path)
    {
      OnlyRemoval(f, path);
    }
  }

  method ScanSegments(path: string) returns (output: string)
    ensures output == RemoveDots(path)
  {
    var kept: seq<string> := [];
    var trailing := false;
    var pos := if path != "" && path[0] == '/' then 1 else 0;
    ghost var whole := Walk(Unrooted(path), Kept([], false));
    assert path[0..] == path;
    while pos < |path|
      invariant pos <= |path| && whole == Walk(path[pos..], Kept(kept, trailing))
    {
      var slash := IndexOf(path[pos..], '/');
      var hasSlash := slash < |path| - pos;
      var segment := path[pos..pos + slash];
      WalkUnfold(path, pos, slash, Kept(kept, trailing));
      pos := if hasSlash then pos + slash + 1 else |path|;
      if segment == "." {
        trailing := true;
      } else if segment == ".." {
        if kept != [] {
          kept := kept[..|kept| - 1];
        }
        trailing := true;
      } else {
        kept := kept + [segment];
        trailing := hasSlash;
      }
    }
    output := "";
    for i := 0 to |kept|
      invariant output == Join(kept[..i])
    {
      JoinSnoc(kept[..i], kept[i]);
      assert kept[..i + 1] == kept[..i] + [kept[i]];
      output := output + "/" + kept[i];
    }
    assert kept[..|kept|] == kept;
    if trailing {
      output := output + "/";
    }
    assert Join(kept) + "" == Join(kept);
    if output == "" {
      output := "/";
    }
  }

  lemma WalkUnfold(path: string, pos: nat, slash: nat, k: Kept)
    requires pos < |path| && slash == IndexOf(path[pos..], '/')
    ensures var segment := path[pos..pos + slash];
            Walk(path[pos..], k) ==
            if slash < |path| - pos then Walk(path[pos + slash + 1..], Enter(k, segment, true))
            else Walk(path[|path|..], Enter(k, segment, false))
  {
    hide Enter, Walk, IndexOf;
    var rest := path[pos..];
    WalkRest(rest, k);
    assert rest[..slash] == path[pos..pos + slash];
    if slash < |rest| {
      assert rest[slash + 1..] == path[pos + slash + 1..];
    } else {
      assert rest[..slash] == rest && path[|path|..] == "";
    }
  }

  lemma WalkRest(rest: string, k: Kept)
    requires rest != ""
    ensures var slash := IndexOf(rest, '/');
            Walk(rest, k) ==
            if slash < |rest| then Walk(rest[slash + 1..], Enter(k, rest[..slash], true)) else Walk("", Enter(k, rest, false))
  {
    hide Enter, IndexOf;
  }
}
