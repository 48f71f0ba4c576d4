/**
  Percent coding of URL parts and its normalisation (section 6.2.2 of RFC 3986). `None`
  stands for the single error kind InvalidUrl.
 */
module Percent {
  import opened Text
  import opened Sequences

  predicate IsUnreserved(c: char) {
    'A' <= c <= 'Z' || 'a' <= c <= 'z' || '0' <= c <= '9' || c == '-' || c == '.' || c == '_' || c == '~'
  }

  /** The value of a hexadecimal digit, or -1. */
  function Hex(c: char): (d: int)
    ensures -1 <= d < 16
  {
    if '0' <= c <= '9' then c as int - '0' as int
    else if 'A' <= c <= 'F' then c as int - 'A' as int + 10
    else if 'a' <= c <= 'f' then c as int - 'a' as int + 10
    else -1
  }

  function UpperHex(d: nat): char
    requires d < 16
  {
    if d < 10 then '0' + d as char else 'A' + (d - 10) as char
  }

  /** The characters of a URL are bytes. */
  predicate IsBytes(s: string) {
    forall i :: 0 <= i < |s| ==> s[i] as int < 256
  }

  /** `%XX` with an upper-case number. */
  function Escaped(c: char): string
    requires c as int < 256
  {
    ['%', UpperHex(c as int / 16), UpperHex(c as int % 16)]
  }

  predicate StartsEscape(s: string) {
    |s| >= 3 && s[0] == '%' && Hex(s[1]) >= 0 && Hex(s[2]) >= 0
  }

  function EscapeValue(s: string): (c: char)
    requires StartsEscape(s)
    ensures c as int < 256
  {
    (Hex(s[1]) * 16 + Hex(s[2])) as char
  }

  /** Every `%` begins a two-digit escape. */
  predicate ValidPercent(s: string)
    decreases |s|
  {
    s == [] || (if s[0] != '%' then ValidPercent(s[1..]) else StartsEscape(s) && ValidPercent(s[3..]))
  }

  function Decode(s: string): Option<string>
    decreases |s|
  {
    if s == [] then Some("")
    else if s[0] != '%' then Prefix([s[0]], Decode(s[1..]))
    else if StartsEscape(s) then Prefix([EscapeValue(s)], Decode(s[3..]))
    else None
  }

  function Prefix(a: string, b: Option<string>): Option<string> {
    if b.Some? then Some(a + b.value) else None
  }

  function EncodeByte(c: char): string
    requires c as int < 256
  {
    if IsUnreserved(c) then [c] else Escaped(c)
  }

  function Encode(s: string): string
    requires IsBytes(s)
  {
    if s == [] then "" else EncodeByte(s[0]) + Encode(s[1..])
  }

  /** Section 6.2.2.2 of RFC 3986: unreserved bytes are decoded, other escapes get upper-case digits. */
  function Normalize(s: string): string
    requires ValidPercent(s)
    decreases |s|
  {
    if s == [] then ""
    else if s[0] != '%' then [s[0]] + Normalize(s[1..])
    else EncodeByte(EscapeValue(s)) + Normalize(s[3..])
  }

  // ------------------------------------------------------------------------- properties

  lemma EscapedValue(c: char, tail: string)
    requires c as int < 256
    ensures StartsEscape(Escaped(c) + tail) && EscapeValue(Escaped(c) + tail) == c && (Escaped(c) + tail)[3..] == tail
  {
    var n := c as int;
    assert Hex(UpperHex(n / 16)) == n / 16 && Hex(UpperHex(n % 16)) == n % 16;
  }

  /** One encoded byte in front of anything: how the three scanners see it. */
  lemma EncodeByteStep(c: char, tail: string)
    requires c as int < 256
    ensures Decode(EncodeByte(c) + tail) == Prefix([c], Decode(tail))
    ensures ValidPercent(EncodeByte(c) + tail) == ValidPercent(tail)
    ensures ValidPercent(tail) ==> Normalize(EncodeByte(c) + tail) == EncodeByte(c) + Normalize(tail)
  {
    var s := EncodeByte(c) + tail;
    if IsUnreserved(c) {
      assert s[1..] == tail;
    } else {
      EscapedValue(c, tail);
    }
  }

  /** Decoding undoes encoding. */
  lemma {:induction false} EncodeThenDecode(s: string)
    requires IsBytes(s)
    ensures ValidPercent(Encode(s)) && Decode(Encode(s)) == Some(s)
  {
    if s != [] {
      EncodeByteStep(s[0], Encode(s[1..]));
      EncodeThenDecode(s[1..]);
      assert [s[0]] + s[1..] == s;
    }
  }

  /** Decoding succeeds exactly on well-formed escapes. */
  lemma {:induction false} DecodeDefined(s: string)
    ensures Decode(s).Some? <==> ValidPercent(s)
    decreases |s|
  {
    if s == [] {
    } else if s[0] != '%' {
      DecodeDefined(s[1..]);
    } else if StartsEscape(s) {
      DecodeDefined(s[3..]);
    }
  }

  /** Normalisation keeps the bytes an URL part stands for, and is idempotent. */
  lemma {:induction false} NormalizeLaws(s: string)
    requires ValidPercent(s)
    ensures ValidPercent(Normalize(s))
    ensures Decode(Normalize(s)) == Decode(s)
    ensures Normalize(Normalize(s)) == Normalize(s)
    decreases |s|
  {
    if s == [] {
    } else if s[0] != '%' {
      NormalizeLaws(s[1..]);
      assert ([s[0]] + Normalize(s[1..]))[1..] == Normalize(s[1..]);
    } else {
      NormalizeLaws(s[3..]);
      EncodeByteStep(EscapeValue(s), Normalize(s[3..]));
    }
  }

  /** A byte that cannot be part of an escape separates well-formed parts. */
  lemma {:induction false} SplitValid(a: string, sep: char, b: string)
    requires sep != '%' && Hex(sep) < 0
    ensures ValidPercent(a + [sep] + b) <==> ValidPercent(a) && ValidPercent(b)
    decreases |a|
  {
    var s := a + [sep] + b;
    if a == [] {
      assert s[1..] == b;
    } else if a[0] != '%' {
      assert s[1..] == a[1..] + [sep] + b;
      SplitValid(a[1..], sep, b);
    } else if StartsEscape(a) {
      assert s[3..] == a[3..] + [sep] + b;
      SplitValid(a[3..], sep, b);
    } else {
      assert |a| > 1 ==> s[1] == a[1];
      assert |a| > 2 ==> s[2] == a[2];
    }
  }

  lemma {:induction false} SplitNormalize(a: string, sep: char, b: string)
    requires sep != '%' && Hex(sep) < 0 && ValidPercent(a) && ValidPercent(b)
    ensures ValidPercent(a + [sep] + b)
    ensures Normalize(a + [sep] + b) == Normalize(a) + [sep] + Normalize(b)
    decreases |a|
  {
    hide EncodeByte, Normalize, ValidPercent;
    SplitValid(a, sep, b);
    var s := a + [sep] + b;
    if a == [] {
      assert s == [sep] + b;
      NormalizePlain(sep, b);
      NormalizeNothing();
    } else if a[0] != '%' {
      assert a == [a[0]] + a[1..] && s == [a[0]] + (a[1..] + [sep] + b);
      NormalizePlain(a[0], a[1..]);
      NormalizePlain(a[0], a[1..] + [sep] + b);
      SplitNormalize(a[1..], sep, b);
    } else {
      ValidEscape(a);
      assert s == a + ([sep] + b) && s[3..] == a[3..] + [sep] + b;
      SameEscape(a, [sep] + b);
      ValidEscape(s);
      SplitNormalize(a[3..], sep, b);
    }
  }

  lemma NormalizeNothing()
    ensures ValidPercent("") && Normalize("") == ""
  {
  }

  lemma NormalizePlain(c: char, t: string)
    requires c != '%'
    ensures ValidPercent([c] + t) == ValidPercent(t)
    ensures ValidPercent(t) ==> Normalize([c] + t) == [c] + Normalize(t)
  {
    assert ([c] + t)[1..] == t;
  }

  lemma ValidEscape(s: string)
    requires s != [] && s[0] == '%' && ValidPercent(s)
    ensures StartsEscape(s) && ValidPercent(s[3..])
    ensures Normalize(s) == EncodeByte(EscapeValue(s)) + Normalize(s[3..])
  {
  }

  lemma SameEscape(a: string, b: string)
    requires StartsEscape(a)
    ensures StartsEscape(a + b) && EscapeValue(a + b) == EscapeValue(a)
  {
  }

  /** The bytes of a normalised part: those of the original, decoded unreserved bytes, and escapes. */
  lemma {:induction false} NormalizeBytes(s: string, c: char)
    requires ValidPercent(s) && c in Normalize(s)
    ensures c in s || IsUnreserved(c) || c == '%'
    decreases |s|
  {
    if s != [] {
      if s[0] != '%' {
        if c in Normalize(s[1..]) { NormalizeBytes(s[1..], c); }
      } else {
        if c in Normalize(s[3..]) { NormalizeBytes(s[3..], c); }
      }
    }
  }

  // --------------------------------------------------------------------- scanning forms

  method ValidPercentSequences(s: string) returns (b: bool)
    ensures b == ValidPercent(s)
  {
    var i := 0;
    assert s[0..] == s;
    while i < |s|
      invariant i <= |s| && ValidPercent(s[i..]) == ValidPercent(s)
    {
      ghost var rest := s[i..];
      assert rest[1..] == s[i + 1..] && (|rest| >= 3 ==> rest[3..] == s[i + 3..]);
      if s[i] == '%' {
        if i + 2 >= |s| || Hex(s[i + 1]) < 0 || Hex(s[i + 2]) < 0 {
          return false;
        }
        i := i + 2;
      }
      i := i + 1;
    }
    b := true;
  }

  method PercentEncode(s: string) returns (r: string)
    requires IsBytes(s)
    ensures r == Encode(s)
  {
    hide IsUnreserved, Escaped;
    r := "";
    assert s[0..] == s;
    for i := 0 to |s|
      invariant r + Encode(s[i..]) == Encode(s)
    {
      assert s[i..][1..] == s[i + 1..];
      assert Encode(s[i..]) == EncodeByte(s[i]) + Encode(s[i + 1..]);
      ghost var done := r;
      r := r + (if IsUnreserved(s[i]) then [s[i]] else Escaped(s[i]));
      Regroup(done, EncodeByte(s[i]), Encode(s[i + 1..]));
    }
    assert s[|s|..] == "";
  }

  method PercentDecode(s: string) returns (r: Option<string>)
    ensures r == Decode(s)
  {
    var out := "";
    var i := 0;
    assert s[0..] == s;
    ghost var whole := Decode(s);
    assert whole == Prefix(out, whole) by { assert whole.Some? ==> "" + whole.value == whole.value; }
    while i < |s|
      invariant i <= |s| && whole == Prefix(out, Decode(s[i..]))
    {
      ghost var rest := s[i..];
      assert rest[1..] == s[i + 1..] && (|rest| >= 3 ==> rest[3..] == s[i + 3..]);
      if s[i] != '%' {
        PrefixTwice(out, [s[i]], Decode(s[i + 1..]));
        out := out + [s[i]];
        i := i + 1;
      } else {
        if i + 2 >= |s| || Hex(s[i + 1]) < 0 || Hex(s[i + 2]) < 0 {
          return None;
        }
        var c := (Hex(s[i + 1]) * 16 + Hex(s[i + 2])) as char;
        PrefixTwice(out, [c], Decode(s[i + 3..]));
        out := out + [c];
        i := i + 3;
      }
    }
    assert out + "" == out;
    r := Some(out);
  }

  lemma PrefixTwice(a: string, b: string, c: Option<string>)
    ensures Prefix(a, Prefix(b, c)) == Prefix(a + b, c)
  {
    if c.Some? {
      assert a + (b + c.value) == a + b + c.value;
    }
  }

  method NormalizePercent(s: string) returns (r: string)
    requires ValidPercent(s)
    ensures r == Normalize(s)
  {
    hide IsUnreserved, Escaped, EncodeByte, Hex;
    r := "";
    var i := 0;
    assert s[0..] == s;
    while i < |s|
      invariant i <= |s| && ValidPercent(s[i..])
      invariant r + Normalize(s[i..]) == Normalize(s)
    {
      ghost var rest := s[i..];
      ghost var done := r;
      assert rest[1..] == s[i + 1..] && (|rest| >= 3 ==> rest[3..] == s[i + 3..]);
      if s[i] != '%' {
        r := r + [s[i]];
        i := i + 1;
        Regroup(done, [rest[0]], Normalize(s[i..]));
      } else {
        EscapeAt(s, i);
        var c := (Hex(s[i + 1]) * 16 + Hex(s[i + 2])) as char;
        EncodeByteIs(c);
        r := r + (if IsUnreserved(c) then [c] else Escaped(c));
        i := i + 3;
        Regroup(done, EncodeByte(c), Normalize(s[i..]));
      }
    }
    assert s[i..] == "";
  }

  lemma EncodeByteIs(c: char)
    requires c as int < 256
    ensures EncodeByte(c) == if IsUnreserved(c) then [c] else Escaped(c)
  {
  }

  /** The escape at a percent sign in the middle of a string. */
  lemma EscapeAt(s: string, i: nat)
    requires i < |s| && s[i] == '%' && ValidPercent(s[i..])
    ensures i + 2 < |s| && Hex(s[i + 1]) >= 0 && Hex(s[i + 2]) >= 0
    ensures EscapeValue(s[i..]) == (Hex(s[i + 1]) * 16 + Hex(s[i + 2])) as char
    ensures ValidPercent(s[i + 3..])
  {
    assert s[i..][1] == s[i + 1] && s[i..][2] == s[i + 2] && s[i..][3..] == s[i + 3..];
  }
}
