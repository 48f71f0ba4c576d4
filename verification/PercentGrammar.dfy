/**
  Percent coding said on pieces: a coded text is a row of plain bytes and three-byte
  escapes, and coding, decoding and normalising work piece by piece.
 */
module PercentGrammar {
  import opened Text
  import opened Percent

  const HEX_DIGITS := "0123456789ABCDEF"

  /** The bytes that need no escape. */
  predicate Unreserved(c: char) {
    c in "ABCDEFGHIJKLMNOPQRSTUVWXYZ" || c in "abcdefghijklmnopqrstuvwxyz" || c in "0123456789" || c in "-._~"
  }

  /** The two digits, in either letter case, spell the byte `c`. */
  predicate Digits(high: char, low: char, c: char) {
    c as int < 256
    && var h, l := c as int / 16, c as int % 16;
       (high == HEX_DIGITS[h] || high == AsciiLower(HEX_DIGITS[h])) && (low == HEX_DIGITS[l] || low == AsciiLower(HEX_DIGITS[l]))
  }

  /** The piece stands for the byte `c`: itself, unless it is a percent sign, or its escape. */
  predicate Means(piece: string, c: char) {
    (piece == [c] && c != '%') || (|piece| == 3 && piece[0] == '%' && Digits(piece[1], piece[2], c))
  }

  /** The pieces stand for the bytes of `value`, one for each. */
  predicate Spells(pieces: seq<string>, value: string) {
    |pieces| == |value| && forall i :: 0 <= i < |value| ==> Means(pieces[i], value[i])
  }

  function Concat(pieces: seq<string>): string {
    if pieces == [] then "" else pieces[0] + Concat(pieces[1..])
  }

  /** The escape of `c` with capital digits. */
  function Capital(c: char): string
    requires c as int < 256
  {
    ['%', HEX_DIGITS[c as int / 16], HEX_DIGITS[c as int % 16]]
  }

  lemma UnreservedIff(c: char)
    ensures IsUnreserved(c) <==> Unreserved(c)
  {
    CapitalsIff(c);
    SmallsIff(c);
  }

  lemma CapitalsIff(c: char)
    ensures c in "ABCDEFGHIJKLMNOPQRSTUVWXYZ" <==> 'A' <= c <= 'Z'
  {
    var s := "ABCDEFGHIJKLMNOPQRSTUVWXYZ";
    if 'A' <= c <= 'Z' {
      assert s[c as int - 'A' as int] == c;
    }
  }

  lemma SmallsIff(c: char)
    ensures c in "abcdefghijklmnopqrstuvwxyz" <==> 'a' <= c <= 'z'
  {
    var s := "abcdefghijklmnopqrstuvwxyz";
    if 'a' <= c <= 'z' {
      assert s[c as int - 'a' as int] == c;
    }
  }

  lemma UpperHexIs(d: nat)
    requires d < 16
    ensures UpperHex(d) == HEX_DIGITS[d]
  {
  }

  lemma HexIff(ch: char, d: nat)
    requires d < 16
    ensures Hex(ch) == d <==> ch == HEX_DIGITS[d] || ch == AsciiLower(HEX_DIGITS[d])
  {
    UpperHexIs(d);
  }

  lemma DigitsIff(high: char, low: char, c: char)
    ensures Digits(high, low, c) <==> Hex(high) >= 0 && Hex(low) >= 0 && (Hex(high) * 16 + Hex(low)) as char == c
  {
    hide Hex;
    if c as int < 256 {
      HexIff(high, c as int / 16);
      HexIff(low, c as int % 16);
    }
  }

  lemma EscapeMeans(s: string, c: char)
    requires StartsEscape(s)
    ensures Means(s[..3], c) <==> EscapeValue(s) == c
  {
    DigitsIff(s[1], s[2], c);
  }

  /** Decoding reads the pieces of the text. */
  lemma {:induction false} DecodeForth(pieces: seq<string>, value: string)
    requires Spells(pieces, value)
    ensures Decode(Concat(pieces)) == Some(value)
    decreases |pieces|
  {
    hide Means, Decode;
    if pieces == [] {
      DecodeNothing();
    } else {
      var rest := Concat(pieces[1..]);
      DecodeForth(pieces[1..], value[1..]);
      DecodePiece(pieces[0], value[0], rest);
      assert [value[0]] + value[1..] == value;
    }
  }

  lemma DecodeNothing()
    ensures Decode("") == Some("")
  {
  }

  lemma DecodePiece(piece: string, c: char, rest: string)
    requires Means(piece, c)
    ensures Decode(piece + rest) == Prefix([c], Decode(rest))
  {
    hide Digits, Hex;
    var s := piece + rest;
    if piece == [c] && c != '%' {
      assert s[1..] == rest;
    } else {
      DigitsIff(piece[1], piece[2], c);
      assert s[3..] == rest && s[..3] == piece;
    }
  }

  /** What decodes consists of pieces. */
  lemma {:induction false} DecodeBack(s: string) returns (pieces: seq<string>)
    requires Decode(s).Some?
    ensures Concat(pieces) == s && Spells(pieces, Decode(s).value)
    decreases |s|
  {
    hide Digits, Hex;
    if s == [] {
      pieces := [];
    } else {
      var n := if s[0] != '%' then 1 else 3;
      var more := DecodeBack(s[n..]);
      pieces := [s[..n]] + more;
      assert pieces[1..] == more && s == s[..n] + s[n..];
      if n == 3 {
        EscapeMeans(s, EscapeValue(s));
      }
    }
  }

  /** A text decodes to a value exactly when it is put together from pieces that stand for its bytes. */
  lemma DecodeIff(s: string, value: string)
    ensures Decode(s) == Some(value) <==> exists pieces :: Concat(pieces) == s && Spells(pieces, value)
  {
    hide Decode, Concat, Spells;
    if pieces :| Concat(pieces) == s && Spells(pieces, value) {
      DecodeForth(pieces, value);
    }
    if Decode(s) == Some(value) {
      var pieces := DecodeBack(s);
    }
  }

  /** Coding: an unreserved byte stays, every other becomes an escape with capital digits. */
  function Coded(value: string): (pieces: seq<string>)
    requires IsBytes(value)
    ensures |pieces| == |value|
  {
    seq(|value|, i requires 0 <= i < |value| => if Unreserved(value[i]) then [value[i]] else Capital(value[i]))
  }

  lemma {:induction false} EncodeIs(value: string)
    requires IsBytes(value)
    ensures Encode(value) == Concat(Coded(value))
  {
    hide IsUnreserved, Unreserved;
    if value != [] {
      var pieces := Coded(value);
      EncodeIs(value[1..]);
      assert pieces[1..] == Coded(value[1..]);
      UnreservedIff(value[0]);
      UpperHexIs(value[0] as int / 16);
      UpperHexIs(value[0] as int % 16);
    }
  }

  /** Normalising one piece: an escape of an unreserved byte is taken off, any other gets capital digits. */
  function NormalPiece(piece: string, c: char): string
    requires Means(piece, c)
  {
    if |piece| == 1 then piece else if Unreserved(c) then [c] else Capital(c)
  }

  /** Normalising works piece by piece. */
  lemma {:induction false} NormalizeIs(pieces: seq<string>, value: string)
    requires Spells(pieces, value)
    ensures ValidPercent(Concat(pieces))
    ensures Normalize(Concat(pieces)) ==
            Concat(seq(|pieces|, i requires 0 <= i < |pieces| => NormalPiece(pieces[i], value[i])))
    decreases |pieces|
  {
    hide Means, Normalize, ValidPercent, NormalPiece;
    if pieces == [] {
      NormalizeNothing();
    } else {
      var rest := Concat(pieces[1..]);
      NormalizeIs(pieces[1..], value[1..]);
      NormalizeOne(pieces[0], value[0], rest);
      var normal := seq(|pieces|, i requires 0 <= i < |pieces| => NormalPiece(pieces[i], value[i]));
      assert normal[1..] == seq(|pieces[1..]|, i requires 0 <= i < |pieces[1..]| => NormalPiece(pieces[1..][i], value[1..][i]));
      assert normal[0] == NormalPiece(pieces[0], value[0]);
    }
  }

  lemma NormalizeOne(piece: string, c: char, rest: string)
    requires Means(piece, c) && ValidPercent(rest)
    ensures ValidPercent(piece + rest) && Normalize(piece + rest) == NormalPiece(piece, c) + Normalize(rest)
  {
    hide Digits, Hex, IsUnreserved, Unreserved;
    var s := piece + rest;
    if piece == [c] && c != '%' {
      NormalizePlain(c, rest);
    } else {
      DigitsIff(piece[1], piece[2], c);
      assert s[3..] == rest && s[..3] == piece;
      EscapeMeans(s, c);
      UnreservedIff(c);
      UpperHexIs(c as int / 16);
      UpperHexIs(c as int % 16);
    }
  }
}
