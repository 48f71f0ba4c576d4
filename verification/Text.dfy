/**
  Byte-string helpers shared by the text codecs. A byte is a `char`; nothing in
  this module depends on the character being below 256.
 */
module Text {

  datatype Option<+T> = None | Some(value: T)

  /** The position of the first `c` in `s`, or `|s|` when there is none. */
  function IndexOf(s: string, c: char): (i: nat)
    ensures i <= |s|
    ensures c !in s[..i]
    ensures i < |s| ==> s[i] == c
  {
    if s == [] then 0
    else if s[0] == c then 0
    else
      assert s[..1 + IndexOf(s[1..], c)] == [s[0]] + s[1..][..IndexOf(s[1..], c)];
      1 + IndexOf(s[1..], c)
  }

  lemma IndexOfIs(s: string, c: char, i: nat)
    requires i <= |s| && c !in s[..i]
    requires i < |s| ==> s[i] == c
    ensures IndexOf(s, c) == i
  {
  }

  function AsciiLower(c: char): char {
    if 'A' <= c <= 'Z' then c - 'A' + 'a' else c
  }

  /** Equality up to ASCII letter case. */
  predicate EqualsIgnoreCase(a: string, b: string) {
    |a| == |b| && forall i :: 0 <= i < |a| ==> AsciiLower(a[i]) == AsciiLower(b[i])
  }

  // ---------------------------------------------------------------- trimming

  predicate IsOws(c: char) {
    c == ' ' || c == '\t'
  }

  function TrimLeft(s: string): (r: string)
    ensures |r| <= |s|
    ensures r == [] || !IsOws(r[0])
  {
    if s != [] && IsOws(s[0]) then TrimLeft(s[1..]) else s
  }

  function TrimRight(s: string): (r: string)
    ensures |r| <= |s|
    ensures r <= s
    ensures r == [] || !IsOws(r[|r| - 1])
  {
    if s != [] && IsOws(s[|s| - 1]) then TrimRight(s[..|s| - 1]) else s
  }

  function Trim(s: string): string {
    TrimRight(TrimLeft(s))
  }

  lemma {:induction false} TrimLeftAppend(s: string, c: char)
    ensures TrimLeft(s + [c]) == if TrimLeft(s) == [] && IsOws(c) then [] else TrimLeft(s) + [c]
  {
    if s != [] && IsOws(s[0]) {
      assert (s + [c])[1..] == s[1..] + [c];
      TrimLeftAppend(s[1..], c);
    } else if s == [] {
      assert s + [c] == [c];
    }
  }

  lemma TrimPrepend(c: char, s: string)
    requires IsOws(c)
    ensures Trim([c] + s) == Trim(s)
  {
    assert ([c] + s)[1..] == s;
  }

  lemma TrimAppend(s: string, c: char)
    requires IsOws(c)
    ensures Trim(s + [c]) == Trim(s)
  {
    TrimLeftAppend(s, c);
    var t := TrimLeft(s);
    if t != [] {
      assert (t + [c])[..|t + [c]| - 1] == t;
    }
  }

  /** Trimming decomposes a string into blank edges around a core without blank ends. */
  lemma {:induction false} TrimLeftSplits(s: string) returns (n: nat)
    ensures n <= |s| && TrimLeft(s) == s[n..]
    ensures forall i :: 0 <= i < n ==> IsOws(s[i])
  {
    if s != [] && IsOws(s[0]) {
      var k := TrimLeftSplits(s[1..]);
      n := k + 1;
      assert s[1..][k..] == s[n..];
    } else {
      n := 0;
    }
  }

  lemma TrimIdempotent(s: string)
    ensures Trim(Trim(s)) == Trim(s)
  {
    var t := Trim(s);
    assert TrimLeft(t) == t by {
      if t != [] { assert t[0] == TrimLeft(s)[0]; }
    }
  }

  lemma TrimMembers(s: string)
    ensures forall c :: c in Trim(s) ==> c in s
  {
    var n := TrimLeftSplits(s);
  }

  predicate Blank(s: string) {
    forall i :: 0 <= i < |s| ==> IsOws(s[i])
  }

  predicate IsTrimmed(s: string) {
    s == [] || (!IsOws(s[0]) && !IsOws(s[|s| - 1]))
  }

  /** `core` is `s` without the blanks at its two ends. */
  ghost predicate IsCore(s: string, core: string) {
    IsTrimmed(core) && exists left, right :: Blank(left) && Blank(right) && s == left + core + right
  }

  lemma {:induction false} TrimSurrounded(left: string, core: string, right: string)
    requires Blank(left) && Blank(right) && IsTrimmed(core)
    ensures Trim(left + core + right) == core
    decreases |left| + |right|
  {
    if left != [] {
      assert left + core + right == [left[0]] + (left[1..] + core + right);
      TrimPrepend(left[0], left[1..] + core + right);
      TrimSurrounded(left[1..], core, right);
    } else if right != [] {
      var front, last := right[..|right| - 1], right[|right| - 1];
      assert left + core + right == left + core + front + [last];
      TrimAppend(left + core + front, last);
      TrimSurrounded(left, core, front);
    } else {
      assert left + core + right == core;
    }
  }

  lemma {:induction false} TrimRightSplits(s: string)
    ensures TrimRight(s) <= s && Blank(s[|TrimRight(s)|..])
  {
    if s != [] && IsOws(s[|s| - 1]) {
      var front := s[..|s| - 1];
      TrimRightSplits(front);
      assert s[|TrimRight(s)|..] == front[|TrimRight(s)|..] + [s[|s| - 1]];
    }
  }

  lemma TrimParts(s: string) returns (left: string, right: string)
    ensures Blank(left) && Blank(right) && s == left + Trim(s) + right && IsTrimmed(Trim(s))
  {
    hide TrimLeft, TrimRight;
    var n := TrimLeftSplits(s);
    var t := TrimLeft(s);
    TrimRightSplits(t);
    left, right := s[..n], t[|TrimRight(t)|..];
    assert t == TrimRight(t) + right;
    assert s == left + t;
  }

  /** Trimming yields the core, and there is only one. */
  lemma TrimIff(s: string, core: string)
    ensures Trim(s) == core <==> IsCore(s, core)
  {
    hide Trim, IsTrimmed, Blank;
    if IsCore(s, core) {
      var left, right :| Blank(left) && Blank(right) && s == left + core + right;
      TrimSurrounded(left, core, right);
    }
    var left, right := TrimParts(s);
  }

  /** The scanning form of `Trim`: one cursor from each end. */
  method TrimOws(s: string) returns (r: string)
    ensures r == Trim(s)
  {
    var first := 0;
    while first < |s| && IsOws(s[first])
      invariant first <= |s|
      invariant TrimLeft(s[first..]) == TrimLeft(s)
    {
      assert s[first..][1..] == s[first + 1..];
      first := first + 1;
    }
    var core := s[first..];
    var last := |core|;
    assert core[..last] == core;
    while 0 < last && IsOws(core[last - 1])
      invariant last <= |core|
      invariant TrimRight(core[..last]) == TrimRight(core)
    {
      assert core[..last][..last - 1] == core[..last - 1];
      last := last - 1;
    }
    r := core[..last];
  }

  // ------------------------------------------------------- comma separated lists

  /** The trimmed members of a comma-separated field value; there is always at least one. */
  function Tokens(s: string): (r: seq<string>)
    ensures r != []
    decreases |s|
  {
    var comma := IndexOf(s, ',');
    if comma == |s| then [Trim(s)]
    else [Trim(s[..comma])] + Tokens(s[comma + 1..])
  }

  /** The members of a list are the cores of the pieces between its commas. */
  lemma TokensOfPieces(piece: string, rest: string)
    requires ',' !in piece
    ensures |Tokens(piece)| == 1 && IsCore(piece, Tokens(piece)[0])
    ensures var all := Tokens(piece + "," + rest); IsCore(piece, all[0]) && all[1..] == Tokens(rest)
  {
    hide Trim, IsCore;
    IndexOfIs(piece, ',', |piece|);
    TrimIff(piece, Trim(piece));
    var s := piece + "," + rest;
    assert s[..|piece|] == piece && s[|piece| + 1..] == rest;
    IndexOfIs(s, ',', |piece|);
  }

  lemma TokensPrepend(c: char, s: string)
    requires IsOws(c)
    ensures Tokens([c] + s) == Tokens(s)
  {
    var t := [c] + s;
    var comma := IndexOf(s, ',');
    assert t[..comma + 1] == [c] + s[..comma];
    IndexOfIs(t, ',', comma + 1);
    TrimPrepend(c, s[..comma]);
    if comma == |s| {
      assert s[..comma] == s;
    } else {
      assert t[comma + 2..] == s[comma + 1..];
    }
  }

  lemma {:induction false} TokensAppend(s: string, c: char)
    requires IsOws(c)
    ensures Tokens(s + [c]) == Tokens(s)
    decreases |s|
  {
    var t := s + [c];
    var comma := IndexOf(s, ',');
    if comma == |s| {
      IndexOfIs(t, ',', |t|);
      TrimAppend(s, c);
    } else {
      assert t[..comma] == s[..comma];
      IndexOfIs(t, ',', comma);
      assert t[comma + 1..] == s[comma + 1..] + [c];
      TokensAppend(s[comma + 1..], c);
    }
  }

  lemma {:induction false} TokensTrimLeft(s: string)
    ensures Tokens(TrimLeft(s)) == Tokens(s)
  {
    if s != [] && IsOws(s[0]) {
      TokensTrimLeft(s[1..]);
      assert s == [s[0]] + s[1..];
      TokensPrepend(s[0], s[1..]);
    }
  }

  lemma {:induction false} TokensTrimRight(s: string)
    ensures Tokens(TrimRight(s)) == Tokens(s)
  {
    if s != [] && IsOws(s[|s| - 1]) {
      var front := s[..|s| - 1];
      TokensTrimRight(front);
      assert s == front + [s[|s| - 1]];
      TokensAppend(front, s[|s| - 1]);
    }
  }

  /** Blank edges of a field value do not change its list members. */
  lemma TokensTrim(s: string)
    ensures Tokens(Trim(s)) == Tokens(s)
  {
    TokensTrimLeft(s);
    TokensTrimRight(TrimLeft(s));
  }
}
