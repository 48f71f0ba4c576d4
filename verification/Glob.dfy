/**
  The file-system glob matcher and its one-level scan. A pattern is read as a list of
  tokens, each of which stands for a set of strings; a text is in the language of the
  pattern when it can be cut into one piece for each token.
 */
module Glob {
  import opened Text

  datatype Token = Literal(c: char) | One | Star | Deep | Folders

  function Tokens(p: string): seq<Token> {
    if p == [] then []
    else if p[0] != '*' then [if p[0] == '?' then One else Literal(p[0])] + Tokens(p[1..])
    else if |p| == 1 || p[1] != '*' then [Star] + Tokens(p[1..])
    else if |p| == 2 || p[2] != '/' then [Deep] + Tokens(p[2..])
    else [Folders] + Tokens(p[3..])
  }

  predicate Denotes(token: Token, piece: string) {
    match token
    case Literal(c) => piece == [c]
    case One => |piece| == 1 && piece[0] != '/'
    case Star => '/' !in piece
    case Deep => true
    case Folders => piece == [] || piece[|piece| - 1] == '/'
  }

  function Joined(pieces: seq<string>): string {
    if pieces == [] then [] else pieces[0] + Joined(pieces[1..])
  }

  ghost predicate Cuts(tokens: seq<Token>, pieces: seq<string>, text: string) {
    && |pieces| == |tokens| && Joined(pieces) == text
    && forall i :: 0 <= i < |tokens| ==> Denotes(tokens[i], pieces[i])
  }

  ghost predicate InLanguage(pattern: string, text: string) {
    exists pieces :: Cuts(Tokens(pattern), pieces, text)
  }

  // -------------------------------------------------------------- one token at a time

  ghost predicate Fits(tokens: seq<Token>, text: string)
    decreases |tokens|
  {
    if tokens == [] then text == []
    else exists k :: 0 <= k <= |text| && Denotes(tokens[0], text[..k]) && Fits(tokens[1..], text[k..])
  }

  lemma {:induction false} CutsFit(tokens: seq<Token>, pieces: seq<string>, text: string)
    requires Cuts(tokens, pieces, text)
    ensures Fits(tokens, text)
    decreases |tokens|
  {
    if tokens != [] {
      var k := |pieces[0]|;
      assert text[..k] == pieces[0] && text[k..] == Joined(pieces[1..]);
      CutsFit(tokens[1..], pieces[1..], text[k..]);
      assert Denotes(tokens[0], text[..k]) && Fits(tokens[1..], text[k..]);
    }
  }

  lemma {:induction false} FitCuts(tokens: seq<Token>, text: string) returns (pieces: seq<string>)
    requires Fits(tokens, text)
    ensures Cuts(tokens, pieces, text)
    decreases |tokens|
  {
    if tokens == [] {
      pieces := [];
    } else {
      var k :| 0 <= k <= |text| && Denotes(tokens[0], text[..k]) && Fits(tokens[1..], text[k..]);
      var rest := FitCuts(tokens[1..], text[k..]);
      pieces := [text[..k]] + rest;
      assert pieces[1..] == rest && text == text[..k] + text[k..];
    }
  }

  /** Matching token by token decides the language. */
  lemma FitsIffInLanguage(pattern: string, text: string)
    ensures Fits(Tokens(pattern), text) <==> InLanguage(pattern, text)
  {
    if Fits(Tokens(pattern), text) {
      var pieces := FitCuts(Tokens(pattern), text);
    }
    if InLanguage(pattern, text) {
      var pieces :| Cuts(Tokens(pattern), pieces, text);
      CutsFit(Tokens(pattern), pieces, text);
    }
  }

  lemma FitsEmpty(text: string)
    ensures Fits(Tokens([]), text) <==> text == []
  {
  }

  /** A pattern character that stands for exactly one text character. */
  lemma FitsSingle(p: string, text: string)
    requires p != [] && p[0] != '*'
    ensures Fits(Tokens(p), text) <==>
              text != [] && (if p[0] == '?' then text[0] != '/' else text[0] == p[0]) && Fits(Tokens(p[1..]), text[1..])
  {
    TokensSingle(p);
    hide Tokens, Fits;
    var ts := Tokens(p);
    assert ts[1..] == Tokens(p[1..]);
    FitsOneChar(ts, text);
  }

  /** The first token stands for one character. */
  lemma FitsOneChar(ts: seq<Token>, text: string)
    requires ts != [] && (ts[0].One? || ts[0].Literal?)
    ensures Fits(ts, text) <==>
              text != [] && (if ts[0].One? then text[0] != '/' else text[0] == ts[0].c) && Fits(ts[1..], text[1..])
  {
    hide Fits;
    FitsFirst(ts, text);
    if Fits(ts, text) {
      var k :| 0 <= k <= |text| && Denotes(ts[0], text[..k]) && Fits(ts[1..], text[k..]);
      assert k == 1;
    } else if text != [] {
      assert text[..1] == [text[0]];
      assert !(Denotes(ts[0], text[..1]) && Fits(ts[1..], text[1..]));
    }
  }

  lemma TokensSingle(p: string)
    requires p != [] && p[0] != '*'
    ensures Tokens(p) == [if p[0] == '?' then One else Literal(p[0])] + Tokens(p[1..])
  {
  }

  function StarToken(n: nat): Token {
    if n == 1 then Star else if n == 2 then Deep else Folders
  }

  /** The length of the wildcard at the front. */
  function StarLength(p: string): nat
    requires p != [] && p[0] == '*'
  {
    if |p| == 1 || p[1] != '*' then 1 else if |p| == 2 || p[2] != '/' then 2 else 3
  }

  lemma TokensWildcard(p: string)
    requires p != [] && p[0] == '*'
    ensures StarLength(p) <= |p| && Tokens(p) == [StarToken(StarLength(p))] + Tokens(p[StarLength(p)..])
  {
  }

  lemma FitsFirst(ts: seq<Token>, text: string)
    requires ts != []
    ensures Fits(ts, text) <==> exists k :: 0 <= k <= |text| && Denotes(ts[0], text[..k]) && Fits(ts[1..], text[k..])
  {
  }

  /** The three wildcards that stand for strings. */
  lemma FitsWildcard(p: string, text: string, n: nat)
    requires p != [] && p[0] == '*'
    requires n == StarLength(p)
    ensures Fits(Tokens(p), text) <==>
              exists k :: 0 <= k <= |text| && Denotes(StarToken(n), text[..k]) && Fits(Tokens(p[n..]), text[k..])
  {
    TokensWildcard(p);
    hide Tokens, Fits, StarLength, StarToken, Denotes;
    var ts := Tokens(p);
    assert ts[0] == StarToken(n) && ts[1..] == Tokens(p[n..]);
    FitsFirst(ts, text);
    if Fits(ts, text) {
      var k :| 0 <= k <= |text| && Denotes(ts[0], text[..k]) && Fits(ts[1..], text[k..]);
      assert Denotes(StarToken(n), text[..k]) && Fits(Tokens(p[n..]), text[k..]);
    }
    if k :| 0 <= k <= |text| && Denotes(StarToken(n), text[..k]) && Fits(Tokens(p[n..]), text[k..]) {
      assert Denotes(ts[0], text[..k]) && Fits(ts[1..], text[k..]);
    }
  }

  // ------------------------------------------------------------------------ the matcher

  /** `glob_match`: holds exactly when the text is in the language of the pattern. */
  method GlobMatch(pattern: string, text: string) returns (matched: bool)
    ensures matched <==> InLanguage(pattern, text)
  {
    FitsIffInLanguage(pattern, text);
    matched := MatchTokens(pattern, text);
  }

  method MatchTokens(pattern: string, text: string) returns (matched: bool)
    ensures matched <==> Fits(Tokens(pattern), text)
    decreases |pattern|, 0
  {
    hide Tokens, Fits;
    var pi, ti := 0, 0;
    assert pattern[0..] == pattern && text[0..] == text;
    while true
      invariant 0 <= pi <= |pattern| && 0 <= ti <= |text|
      invariant Fits(Tokens(pattern), text) <==> Fits(Tokens(pattern[pi..]), text[ti..])
      decreases |pattern| - pi
    {
      ghost var p, t := pattern[pi..], text[ti..];
      if pi == |pattern| {
        FitsEmpty(t);
        return ti == |text|;
      }
      var pc := pattern[pi];
      if pc == '*' {
        if pi + 1 < |pattern| && pattern[pi + 1] == '*' {
          if pi + 2 < |pattern| && pattern[pi + 2] == '/' {
            FitsWildcard(p, t, 3);
            assert p[3..] == pattern[pi + 3..];
            matched := MatchFolders(pattern[pi + 3..], text[ti..]);
            return;
          }
          FitsWildcard(p, t, 2);
          assert p[2..] == pattern[pi + 2..];
          matched := MatchDeep(pattern[pi + 2..], text[ti..]);
          return;
        }
        FitsWildcard(p, t, 1);
        assert p[1..] == pattern[pi + 1..];
        matched := MatchStar(pattern[pi + 1..], text[ti..]);
        return;
      }
      FitsSingle(p, t);
      if ti == |text| {
        return false;
      }
      if pc == '?' {
        if text[ti] == '/' {
          return false;
        }
      } else if text[ti] != pc {
        return false;
      }
      assert p[1..] == pattern[pi + 1..] && t[1..] == text[ti + 1..];
      pi := pi + 1;
      ti := ti + 1;
    }
  }

  /** After a folder wildcard: the whole text first, then what follows each separator. */
  method MatchFolders(rest: string, text: string) returns (matched: bool)
    ensures matched <==> exists k :: 0 <= k <= |text| && Denotes(Folders, text[..k]) && Fits(Tokens(rest), text[k..])
    decreases |rest|, 1
  {
    hide Tokens, Fits;
    assert text[0..] == text && text[..0] == [];
    matched := MatchTokens(rest, text);
    if matched {
      assert Denotes(Folders, text[..0]) && Fits(Tokens(rest), text[0..]);
      return;
    }
    var k := 0;
    while k < |text|
      invariant 0 <= k <= |text|
      invariant forall j :: 0 <= j <= k && Denotes(Folders, text[..j]) ==> !Fits(Tokens(rest), text[j..])
    {
      assert text[..k + 1][k] == text[k];
      if text[k] == '/' {
        matched := MatchTokens(rest, text[k + 1..]);
        if matched {
          assert Denotes(Folders, text[..k + 1]) && Fits(Tokens(rest), text[k + 1..]);
          return;
        }
      }
      k := k + 1;
    }
    matched := false;
  }

  /** After a deep wildcard: the longest run first. */
  method MatchDeep(rest: string, text: string) returns (matched: bool)
    ensures matched <==> exists k :: 0 <= k <= |text| && Denotes(Deep, text[..k]) && Fits(Tokens(rest), text[k..])
    decreases |rest|, 1
  {
    hide Tokens, Fits;
    var k := |text| + 1;
    while k > 0
      invariant 0 <= k <= |text| + 1
      invariant forall j :: k <= j <= |text| ==> !Fits(Tokens(rest), text[j..])
    {
      k := k - 1;
      matched := MatchTokens(rest, text[k..]);
      if matched {
        assert Denotes(Deep, text[..k]) && Fits(Tokens(rest), text[k..]);
        return;
      }
    }
    matched := false;
  }

  /** After a star: the shortest run first, up to the next separator. */
  method MatchStar(rest: string, text: string) returns (matched: bool)
    ensures matched <==> exists k :: 0 <= k <= |text| && Denotes(Star, text[..k]) && Fits(Tokens(rest), text[k..])
    decreases |rest|, 1
  {
    hide Tokens, Fits;
    var k := 0;
    while true
      invariant 0 <= k <= |text| && '/' !in text[..k]
      invariant forall j :: 0 <= j < k ==> !Fits(Tokens(rest), text[j..])
      decreases |text| - k
    {
      matched := MatchTokens(rest, text[k..]);
      if matched {
        assert Denotes(Star, text[..k]) && Fits(Tokens(rest), text[k..]);
        return;
      }
      if k == |text| || text[k] == '/' {
        forall j | k < j <= |text|
          ensures !Denotes(Star, text[..j])
        {
          assert text[..j][k] == '/';
        }
        return false;
      }
      assert text[..k + 1] == text[..k] + [text[k]];
      k := k + 1;
    }
  }

  // ------------------------------------------------------------------ the one-level scan

  predicate Wildcard(c: char) {
    c == '*' || c == '?'
  }

  predicate HasDoubleStar(p: string) {
    exists i :: 0 <= i < |p| - 1 && p[i] == '*' && p[i + 1] == '*'
  }

  /** One past the last separator, or zero. */
  function AfterLastSlash(p: string): (n: nat)
    ensures n <= |p| && '/' !in p[n..] && (n > 0 ==> p[n - 1] == '/')
  {
    if p == [] then 0
    else if p[|p| - 1] == '/' then |p|
    else AfterLastSlash(p[..|p| - 1])
  }

  /** The directory part of a pattern, with its separator. */
  function Prefix(p: string): string {
    p[..AfterLastSlash(p)]
  }

  ghost predicate NeedsWalk(p: string) {
    HasDoubleStar(p) || exists i :: 0 <= i < AfterLastSlash(p) && Wildcard(p[i])
  }

  method NeedsRecursiveWalk(p: string) returns (deep: bool)
    ensures deep <==> NeedsWalk(p)
  {
    var i := 0;
    while i + 1 < |p|
      invariant 0 <= i
      invariant forall k :: 0 <= k < i && k < |p| - 1 ==> !(p[k] == '*' && p[k + 1] == '*')
    {
      if p[i] == '*' && p[i + 1] == '*' {
        return true;
      }
      i := i + 1;
    }
    var first := 0;
    while first < |p| && !Wildcard(p[first])
      invariant 0 <= first <= |p|
      invariant forall k :: 0 <= k < first ==> !Wildcard(p[k])
    {
      first := first + 1;
    }
    // A wildcard before the last separator.
    deep := first < AfterLastSlash(p);
  }

  /** A path that the scan of one directory can propose. */
  predicate OneLevel(p: string, text: string) {
    Prefix(p) <= text && '/' !in text[|Prefix(p)|..]
  }

  /** Literal characters at the front match themselves. */
  lemma {:induction false} FitsLiteral(front: string, rest: string, text: string)
    requires forall i :: 0 <= i < |front| ==> !Wildcard(front[i])
    ensures Fits(Tokens(front + rest), text) <==> front <= text && Fits(Tokens(rest), text[|front|..])
  {
    hide Tokens, Fits;
    if front == [] {
      assert front + rest == rest && text[0..] == text;
    } else {
      var p := front + rest;
      assert p[1..] == front[1..] + rest;
      FitsSingle(p, text);
      if text != [] {
        FitsLiteral(front[1..], rest, text[1..]);
        assert front == [front[0]] + front[1..] && text == [text[0]] + text[1..];
        if front <= text {
          assert text[1..][|front| - 1..] == text[|front|..];
        }
      }
    }
  }

  lemma DoubleStarTail(p: string, n: nat)
    requires n <= |p|
    ensures HasDoubleStar(p[n..]) ==> HasDoubleStar(p)
  {
    if HasDoubleStar(p[n..]) {
      var i :| 0 <= i < |p[n..]| - 1 && p[n..][i] == '*' && p[n..][i + 1] == '*';
      assert p[n + i] == '*' && p[n + i + 1] == '*';
    }
  }

  /** A pattern without separators and double stars only matches names without separators. */
  lemma {:induction false} NamesStayFlat(p: string, text: string)
    requires '/' !in p && !HasDoubleStar(p) && Fits(Tokens(p), text)
    ensures '/' !in text
    decreases |p|
  {
    hide Tokens, Fits;
    if p == [] {
      FitsEmpty(text);
    } else {
      DoubleStarTail(p, 1);
      if p[0] == '*' {
        assert |p| == 1 || p[0 + 1] != '*';
        FitsWildcard(p, text, 1);
        var k :| 0 <= k <= |text| && Denotes(StarToken(1), text[..k]) && Fits(Tokens(p[1..]), text[k..]);
        NamesStayFlat(p[1..], text[k..]);
        assert text == text[..k] + text[k..];
      } else {
        FitsSingle(p, text);
        NamesStayFlat(p[1..], text[1..]);
        assert text == [text[0]] + text[1..];
      }
    }
  }

  /** Without a recursive walk, every match is the directory prefix and a flat name. */
  lemma ScanLosesNothing(p: string, text: string)
    requires !NeedsWalk(p)
    ensures InLanguage(p, text) ==> OneLevel(p, text)
    ensures InLanguage(p, text) <==> OneLevel(p, text) && InLanguage(p[AfterLastSlash(p)..], text[AfterLastSlash(p)..])
  {
    var n := AfterLastSlash(p);
    var front, rest := p[..n], p[n..];
    assert p == front + rest;
    FitsIffInLanguage(p, text);
    FitsLiteral(front, rest, text);
    if front <= text {
      FitsIffInLanguage(rest, text[n..]);
      if Fits(Tokens(rest), text[n..]) {
        DoubleStarTail(p, n);
        NamesStayFlat(rest, text[n..]);
      }
    }
  }

  /** `names` lists what `paths` holds directly below the pattern's directory. */
  ghost predicate Lists(names: seq<string>, p: string, paths: iset<string>) {
    && (forall i :: 0 <= i < |names| ==> '/' !in names[i] && Prefix(p) + names[i] in paths)
    && (forall text :: text in paths && OneLevel(p, text) ==> text[|Prefix(p)|..] in names)
  }

  /** The one-level scan finds every existing path that matches, and nothing else. */
  method ScanOneLevel(p: string, names: seq<string>, ghost paths: iset<string>) returns (matches: seq<string>)
    requires !NeedsWalk(p) && Lists(names, p, paths)
    ensures forall text :: text in matches <==> text in paths && InLanguage(p, text)
  {
    hide InLanguage, NeedsWalk;
    matches := [];
    var prefix := Prefix(p);
    var i := 0;
    while i < |names|
      invariant 0 <= i <= |names|
      invariant forall text :: text in matches ==> text in paths && InLanguage(p, text)
      invariant forall k :: 0 <= k < i && InLanguage(p, prefix + names[k]) ==> prefix + names[k] in matches
    {
      var candidate := prefix + names[i];
      var matched := GlobMatch(p, candidate);
      if matched {
        matches := matches + [candidate];
      }
      i := i + 1;
    }
    forall text | text in paths && InLanguage(p, text)
      ensures text in matches
    {
      ScanLosesNothing(p, text);
      var k :| 0 <= k < |names| && names[k] == text[|prefix|..];
      assert text == prefix + names[k];
    }
  }

  // ---------------------------------------------------------- the walk is never needless

  /** One text of the language: stars empty, deep wildcards a separator. */
  function Sample(p: string): string {
    if p == [] then []
    else if p[0] != '*' then [if p[0] == '?' then 'x' else p[0]] + Sample(p[1..])
    else if |p| == 1 || p[1] != '*' then Sample(p[1..])
    else if |p| == 2 || p[2] != '/' then "/" + Sample(p[2..])
    else Sample(p[3..])
  }

  lemma {:induction false} SampleFits(p: string)
    ensures Fits(Tokens(p), Sample(p))
    decreases |p|
  {
    hide Tokens, Fits;
    var s := Sample(p);
    if p == [] {
      FitsEmpty(s);
    } else if p[0] != '*' {
      SampleFits(p[1..]);
      FitsSingle(p, s);
      assert s[1..] == Sample(p[1..]);
    } else {
      var n := StarLength(p);
      SampleFits(p[n..]);
      FitsWildcard(p, s, n);
      var k := if n == 2 then 1 else 0;
      assert s[k..] == Sample(p[n..]);
      assert Denotes(StarToken(n), s[..k]) && Fits(Tokens(p[n..]), s[k..]);
    }
  }

  lemma {:induction false} SampleIsLiteral(p: string, i: nat)
    requires i < |Sample(p)|
    ensures !Wildcard(Sample(p)[i])
    decreases |p|
  {
    if p[0] != '*' {
      if i > 0 { SampleIsLiteral(p[1..], i - 1); }
    } else if |p| == 1 || p[1] != '*' {
      SampleIsLiteral(p[1..], i);
    } else if |p| == 2 || p[2] != '/' {
      if i > 0 { SampleIsLiteral(p[2..], i - 1); }
    } else {
      SampleIsLiteral(p[3..], i);
    }
  }

  /** A double star in a name yields a separator. */
  lemma {:induction false} SampleGoesDeep(p: string)
    requires '/' !in p && HasDoubleStar(p)
    ensures '/' in Sample(p)
    decreases |p|
  {
    var i :| 0 <= i < |p| - 1 && p[i] == '*' && p[i + 1] == '*';
    if i == 0 {
      assert Sample(p)[0] == '/';
    } else if p[0] == '*' && p[1] == '*' {
      assert Sample(p)[0] == '/';
    } else {
      assert p[1..][i - 1] == '*' && p[1..][i - 1 + 1] == '*';
      SampleGoesDeep(p[1..]);
    }
  }

  lemma {:induction false} SampleLiteral(front: string, rest: string)
    requires forall i :: 0 <= i < |front| ==> !Wildcard(front[i])
    ensures Sample(front + rest) == front + Sample(rest)
  {
    if front == [] {
      assert front + rest == rest;
    } else {
      assert (front + rest)[1..] == front[1..] + rest;
      SampleLiteral(front[1..], rest);
    }
  }

  lemma SampleEscapes(p: string)
    requires NeedsWalk(p)
    ensures !OneLevel(p, Sample(p))
  {
    hide Sample, HasDoubleStar;
    var s, n := Sample(p), AfterLastSlash(p);
    if i :| 0 <= i < n && Wildcard(p[i]) {
      if p[..n] <= s {
        assert s[i] == p[i];
        SampleIsLiteral(p, i);
      }
    } else {
      assert p == p[..n] + p[n..];
      SampleLiteral(p[..n], p[n..]);
      DoubleStarInName(p, n);
      SampleGoesDeep(p[n..]);
      assert s[n..] == Sample(p[n..]);
    }
  }

  lemma DoubleStarInName(p: string, n: nat)
    requires n <= |p| && HasDoubleStar(p) && forall i :: 0 <= i < n ==> !Wildcard(p[i])
    ensures HasDoubleStar(p[n..])
  {
    var j :| 0 <= j < |p| - 1 && p[j] == '*' && p[j + 1] == '*';
    assert p[n..][j - n] == '*' && p[n..][j - n + 1] == '*';
  }

  /** The walk is asked for exactly when some match lies outside the one-level scan. */
  lemma WalkNeededIff(p: string)
    ensures NeedsWalk(p) <==> exists text :: InLanguage(p, text) && !OneLevel(p, text)
  {
    hide NeedsWalk, InLanguage, OneLevel, Fits, Tokens, Sample;
    if !NeedsWalk(p) {
      forall text | InLanguage(p, text)
        ensures OneLevel(p, text)
      {
        ScanLosesNothing(p, text);
      }
    } else {
      SampleFits(p);
      FitsIffInLanguage(p, Sample(p));
      SampleEscapes(p);
      assert InLanguage(p, Sample(p)) && !OneLevel(p, Sample(p));
    }
  }
}
