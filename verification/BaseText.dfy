/** Base64 and Base32 texts: alphabets, groups, padding, and which texts decode to what. */
module BaseText {
  import opened Octets
  import opened Text
  import opened DigitGroups

  // ----------------------------------------------------------------------- the alphabets

  function CharOf(c: Code, i: nat): (ch: char)
    requires i < Base(c)
    ensures ch != '='
  {
    if i < 26 then (('A' as int) + i) as char
    else if c == Base32 then (('2' as int) + (i - 26)) as char
    else if i < 52 then (('a' as int) + (i - 26)) as char
    else if i < 62 then (('0' as int) + (i - 52)) as char
    else if i == 62 then '+' else '/'
  }

  /** The reverse table: negative off the alphabet. */
  function DigitOf(c: Code, ch: char): (i: int)
    ensures i < Base(c)
  {
    if 'A' <= ch <= 'Z' then ch as int - 'A' as int
    else if c == Base32 then (if '2' <= ch <= '7' then ch as int - '2' as int + 26 else -1)
    else if 'a' <= ch <= 'z' then ch as int - 'a' as int + 26
    else if '0' <= ch <= '9' then ch as int - '0' as int + 52
    else if ch == '+' then 62 else if ch == '/' then 63 else -1
  }

  lemma AlphabetInverse(c: Code, i: nat, ch: char)
    ensures i < Base(c) ==> DigitOf(c, CharOf(c, i)) == i
    ensures DigitOf(c, ch) >= 0 ==> CharOf(c, DigitOf(c, ch)) == ch
  {
    if 'A' <= ch <= 'Z' {
    } else if c == Base32 {
    } else if 'a' <= ch <= 'z' {
    } else if '0' <= ch <= '9' {
    }
  }

  function Spelled(c: Code, d: seq<nat>): (s: string)
    requires forall i :: 0 <= i < |d| ==> d[i] < Base(c)
    ensures |s| == |d| && '=' !in s
  {
    seq(|d|, i requires 0 <= i < |d| => CharOf(c, d[i]))
  }

  function Indices(c: Code, s: string): (r: Option<seq<nat>>)
    ensures r.Some? <==> forall i :: 0 <= i < |s| ==> DigitOf(c, s[i]) >= 0
    ensures r.Some? ==> |r.value| == |s| && forall i :: 0 <= i < |s| ==> r.value[i] == DigitOf(c, s[i])
  {
    if forall i :: 0 <= i < |s| ==> DigitOf(c, s[i]) >= 0 then
      Some(seq(|s|, i requires 0 <= i < |s| => DigitOf(c, s[i])))
    else None
  }

  lemma IndicesSpelled(c: Code, d: seq<nat>)
    requires forall i :: 0 <= i < |d| ==> d[i] < Base(c)
    ensures Indices(c, Spelled(c, d)) == Some(d)
  {
    forall i | 0 <= i < |d|
      ensures DigitOf(c, Spelled(c, d)[i]) == d[i]
    {
      AlphabetInverse(c, d[i], 'A');
    }
    assert Indices(c, Spelled(c, d)).value == d;
  }

  lemma SpelledIndices(c: Code, s: string)
    ensures Indices(c, s).Some? ==> Spelled(c, Indices(c, s).value) == s
  {
    if Indices(c, s).Some? {
      forall i | 0 <= i < |s|
        ensures CharOf(c, DigitOf(c, s[i])) == s[i]
      {
        AlphabetInverse(c, 0, s[i]);
      }
    }
  }

  /** A group as text. */
  function GroupText(c: Code, x: seq<byte>): (s: string)
    requires 1 <= |x| <= Whole(c)
    ensures |s| == Chars(c, |x|) && '=' !in s
  {
    Spelled(c, EncodeGroup(c, x))
  }

  function TextGroup(c: Code, s: string, t: nat): Option<seq<byte>> {
    var d := Indices(c, s);
    if d.None? then None else DecodeGroup(c, d.value, t)
  }

  /** Decoding a group and making its text are mutually inverse. */
  lemma GroupIff(c: Code, s: string, t: nat, x: seq<byte>)
    requires 1 <= t <= Whole(c) && |s| == Chars(c, t)
    ensures TextGroup(c, s, t) == Some(x) <==> |x| == t && s == GroupText(c, x)
  {
    hide DecodeGroup, EncodeGroup, Indices, Spelled;
    if |x| == t && s == GroupText(c, x) {
      IndicesSpelled(c, EncodeGroup(c, x));
      GroupForth(c, x);
    }
    if TextGroup(c, s, t) == Some(x) {
      SpelledIndices(c, s);
      IndicesBelow(c, s);
      GroupBack(c, Indices(c, s).value, t);
    }
  }

  lemma IndicesBelow(c: Code, s: string)
    requires Indices(c, s).Some?
    ensures |Indices(c, s).value| == |s| && forall i :: 0 <= i < |s| ==> Indices(c, s).value[i] < Base(c)
  {
  }

  // -------------------------------------------------------------------------- whole texts

  function Pads(n: nat): (s: string)
    ensures |s| == n
  {
    seq(n, _ => '=')
  }

  function Encode64(x: seq<byte>): string {
    if x == [] then ""
    else if |x| < 3 then GroupText(Base64, x) + Pads(3 - |x|)
    else GroupText(Base64, x[..3]) + Encode64(x[3..])
  }

  /** The last group: two pads, one, or none. */
  function LastSize(s: string): (t: nat)
    requires |s| == 4
    ensures 1 <= t <= 3
  {
    if s[2] == '=' && s[3] == '=' then 1 else if s[3] == '=' then 2 else 3
  }

  function Decode64(s: string): Option<seq<byte>> {
    if s == "" then Some([])
    else if |s| < 4 then None
    else if |s| == 4 then TextGroup(Base64, s[..LastSize(s) + 1], LastSize(s))
    else
      var head := TextGroup(Base64, s[..4], 3);
      var rest := Decode64(s[4..]);
      if head.Some? && rest.Some? then Some(head.value + rest.value) else None
  }

  lemma LastText(x: seq<byte>)
    requires 1 <= |x| <= 3
    ensures var s := GroupText(Base64, x) + Pads(3 - |x|);
            |s| == 4 && LastSize(s) == |x| && s[..|x| + 1] == GroupText(Base64, x)
  {
    hide GroupText;
    var g := GroupText(Base64, x);
    var s := g + Pads(3 - |x|);
    assert s[..|x| + 1] == g;
    if |x| == 1 {
    } else if |x| == 2 {
      assert s[2] == g[2];
    } else {
      assert s[3] == g[3];
    }
  }

  /** Decoding accepts exactly the encodings, each with the bytes it came from. */
  lemma {:induction false} Base64Iff(s: string, x: seq<byte>)
    ensures Decode64(s) == Some(x) <==> s == Encode64(x)
    decreases |s| + |x|
  {
    hide TextGroup, GroupText;
    if |x| >= 3 && |s| > 4 {
      GroupIff(Base64, s[..4], 3, x[..3]);
      Base64Iff(s[4..], x[3..]);
      if s == Encode64(x) {
        assert s[..4] == GroupText(Base64, x[..3]) && s[4..] == Encode64(x[3..]);
        assert x == x[..3] + x[3..];
      }
      if Decode64(s) == Some(x) {
        LongDecode(s, x);
        assert s == s[..4] + s[4..];
      }
    } else if |s| == 4 {
      ShortIff(s, x);
    } else if |s| > 4 {
      ShortEncode(x);
      if Decode64(s) == Some(x) {
        LongDecode(s, x);
      }
    } else {
      EncodeLength(x);
    }
  }

  lemma {:induction false} EncodeLength(x: seq<byte>)
    ensures |Encode64(x)| >= 4 || x == []
  {
  }

  lemma ShortEncode(x: seq<byte>)
    requires |x| < 3
    ensures |Encode64(x)| <= 4
  {
  }

  /** A long text: the first three bytes come from the first group. */
  lemma LongDecode(s: string, x: seq<byte>)
    requires |s| > 4 && Decode64(s) == Some(x)
    ensures |x| >= 3 && TextGroup(Base64, s[..4], 3) == Some(x[..3]) && Decode64(s[4..]) == Some(x[3..])
  {
    var head, rest := TextGroup(Base64, s[..4], 3), Decode64(s[4..]);
    GroupIff(Base64, s[..4], 3, head.value);
  }

  lemma ShortIff(s: string, x: seq<byte>)
    requires |s| == 4
    ensures Decode64(s) == Some(x) <==> s == Encode64(x)
  {
    hide TextGroup, GroupText;
    var t := LastSize(s);
    GroupIff(Base64, s[..t + 1], t, x);
    if Decode64(s) == Some(x) {
      PadsBehind(s);
      FourText(x);
    }
    if s == Encode64(x) {
      FourText(x);
      LastText(x);
    }
  }

  lemma PadsBehind(s: string)
    requires |s| == 4
    ensures s == s[..LastSize(s) + 1] + Pads(3 - LastSize(s))
  {
  }

  /** Four characters encode one to three bytes. */
  lemma FourText(x: seq<byte>)
    ensures 1 <= |x| <= 3 ==> Encode64(x) == GroupText(Base64, x) + Pads(3 - |x|)
    ensures |Encode64(x)| == 4 ==> 1 <= |x| <= 3
  {
    hide GroupText;
    if |x| == 3 {
      assert x[..3] == x && x[3..] == [];
    } else if |x| > 3 {
      EncodeLength(x[3..]);
    }
  }

  // ------------------------------------------------------------------------------ Base32

  function Encode32(x: seq<byte>, padding: bool): string {
    if x == [] then ""
    else if |x| < 5 then GroupText(Base32, x) + if padding then Pads(8 - Chars(Base32, |x|)) else ""
    else GroupText(Base32, x[..5]) + Encode32(x[5..], padding)
  }

  /** How many bytes a short group of `n` digits holds; zero where no bytes give that length. */
  function TailSize(n: nat): (t: nat)
    ensures t > 0 <==> n == 2 || n == 4 || n == 5 || n == 7
    ensures t > 0 ==> t < 5 && Chars(Base32, t) == n
  {
    if n == 2 then 1 else if n == 4 then 2 else if n == 5 then 3 else if n == 7 then 4 else 0
  }

  /** The digits without padding. */
  function DecodeData(s: string): Option<seq<byte>> {
    if s == "" then Some([])
    else if |s| < 8 then (if TailSize(|s|) == 0 then None else TextGroup(Base32, s, TailSize(|s|)))
    else
      var head := TextGroup(Base32, s[..8], 5);
      var rest := DecodeData(s[8..]);
      if head.Some? && rest.Some? then Some(head.value + rest.value) else None
  }

  function DataLength(s: string): (n: nat)
    ensures n <= |s| && '=' !in s[..n] && (n < |s| ==> s[n] == '=')
  {
    Text.IndexOf(s, '=')
  }

  /** What may follow the data: nothing, or exactly the pads that fill the last group. */
  predicate TailAccepted(s: string, n: nat)
    requires n <= |s|
  {
    n == |s| || (s[n..] == Pads(8 - n % 8) && TailSize(n % 8) > 0)
  }

  function Decode32(s: string): Option<seq<byte>> {
    var n := DataLength(s);
    if TailAccepted(s, n) then DecodeData(s[..n]) else None
  }

  lemma {:induction false} DataIff(s: string, x: seq<byte>)
    ensures DecodeData(s) == Some(x) <==> s == Encode32(x, false)
    decreases |s| + |x|
  {
    hide TextGroup, GroupText;
    if |s| >= 8 && |x| >= 5 {
      GroupIff(Base32, s[..8], 5, x[..5]);
      DataIff(s[8..], x[5..]);
      if s == Encode32(x, false) {
        assert s[..8] == GroupText(Base32, x[..5]) && s[8..] == Encode32(x[5..], false);
        assert x == x[..5] + x[5..];
      }
      if DecodeData(s) == Some(x) {
        LongData(s, x);
        assert s == s[..8] + s[8..];
      }
    } else if |s| >= 8 {
      ShortTail(x);
      if DecodeData(s) == Some(x) {
        LongData(s, x);
      }
    } else if |x| >= 5 || x == [] || s == "" {
      ShortTail(x);
      if DecodeData(s) == Some(x) && s != "" {
        GroupIff(Base32, s, TailSize(|s|), x);
      }
    } else {
      TailIff(s, x);
    }
  }

  lemma TailIff(s: string, x: seq<byte>)
    requires 0 < |s| < 8 && 0 < |x| < 5
    ensures DecodeData(s) == Some(x) <==> s == Encode32(x, false)
  {
    hide TextGroup, GroupText;
    assert Encode32(x, false) == GroupText(Base32, x);
    if TailSize(|s|) > 0 {
      GroupIff(Base32, s, TailSize(|s|), x);
    }
    TailSizeOf(|x|);
  }

  lemma TailSizeOf(t: nat)
    requires 0 < t < 5
    ensures TailSize(Chars(Base32, t)) == t
  {
  }

  lemma ShortTail(x: seq<byte>)
    ensures |x| < 5 ==> |Encode32(x, false)| < 8
    ensures |x| >= 5 ==> |Encode32(x, false)| >= 8
    ensures x != [] ==> |Encode32(x, false)| > 0
  {
  }

  lemma LongData(s: string, x: seq<byte>)
    requires |s| >= 8 && DecodeData(s) == Some(x)
    ensures |x| >= 5 && TextGroup(Base32, s[..8], 5) == Some(x[..5]) && DecodeData(s[8..]) == Some(x[5..])
  {
    var head, rest := TextGroup(Base32, s[..8], 5), DecodeData(s[8..]);
    GroupIff(Base32, s[..8], 5, head.value);
  }

  /** The padded text is the plain one and the pads that fill its last group. */
  lemma {:induction false} PaddedIs(x: seq<byte>)
    ensures var s := Encode32(x, false);
            && '=' !in s
            && Encode32(x, true) == s + (if |s| % 8 == 0 then "" else Pads(8 - |s| % 8))
            && (|s| % 8 == 0 || TailSize(|s| % 8) > 0)
    decreases |x|
  {
    hide GroupText;
    if |x| >= 5 {
      PaddedIs(x[5..]);
      var g, rest := GroupText(Base32, x[..5]), Encode32(x[5..], false);
      assert |g + rest| % 8 == |rest| % 8;
    } else if x != [] {
      TailSizeOf(|x|);
    }
  }

  /** Decoding accepts exactly the padded and the unpadded encoding of each byte string. */
  lemma Base32Iff(s: string, x: seq<byte>)
    ensures Decode32(s) == Some(x) <==> s == Encode32(x, true) || s == Encode32(x, false)
  {
    hide DecodeData, Encode32;
    var n := DataLength(s);
    DataIff(s[..n], x);
    PaddedIs(x);
    var plain := Encode32(x, false);
    if Decode32(s) == Some(x) {
      assert s == s[..n] + s[n..];
      if n == |s| {
        assert s == plain;
      }
    }
    if s == plain {
      IndexOfIs(s, '=', |s|);
      assert s[..n] == s;
    }
    if s == Encode32(x, true) && |plain| % 8 != 0 {
      assert s[..|plain|] == plain && s[|plain|..] == Pads(8 - |plain| % 8);
      IndexOfIs(s, '=', |plain|);
    }
  }
}
