/**
  The texts of RFC 4648 character by character: which bits of which bytes choose a
  character, the two alphabets written out, and the padding.
 */
module BaseStandard {
  import opened Octets
  import opened DigitGroups
  import opened BaseText

  const CAPITALS := "ABCDEFGHIJKLMNOPQRSTUVWXYZ"
  const SMALLS := "abcdefghijklmnopqrstuvwxyz"
  const ALPHABET_64 := CAPITALS + SMALLS + "0123456789" + "+/"
  const ALPHABET_32 := CAPITALS + "234567"

  lemma CapitalsAt(i: nat)
    requires i < 26
    ensures CAPITALS[i] as int == 'A' as int + i
  {
  }

  lemma SmallsAt(i: nat)
    requires i < 26
    ensures SMALLS[i] as int == 'a' as int + i
  {
  }

  /** Which character stands for which digit. */
  lemma AlphabetsAre(i: nat)
    ensures i < 64 ==> CharOf(Base64, i) == ALPHABET_64[i]
    ensures i < 32 ==> CharOf(Base32, i) == ALPHABET_32[i]
  {
    if i < 26 {
      CapitalsAt(i);
    } else if i < 52 {
      SmallsAt(i - 26);
    }
  }

  lemma TextOf(c: Code, x: seq<byte>)
    requires 1 <= |x| <= Whole(c)
    ensures var alphabet := if c == Base64 then ALPHABET_64 else ALPHABET_32;
            var d := EncodeGroup(c, x);
            forall i :: 0 <= i < |d| ==> GroupText(c, x)[i] == alphabet[d[i]]
  {
    hide EncodeGroup, CharOf;
    var d := EncodeGroup(c, x);
    forall i | 0 <= i < |d|
      ensures GroupText(c, x)[i] == (if c == Base64 then ALPHABET_64 else ALPHABET_32)[d[i]]
    {
      AlphabetsAre(d[i]);
    }
  }

  // ------------------------------------------------------------------ bits of a group

  /** Byte `i` of a group, zero where there is none. */
  function At(x: seq<byte>, i: nat): byte {
    if i < |x| then x[i] else 0
  }

  /** The four six-bit digits of three bytes. */
  function Sixes(a: byte, b: byte, c: byte): (r: seq<nat>)
    ensures |r| == 4
  {
    [a / 4, a % 4 * 16 + b / 16, b % 16 * 4 + c / 64, c % 64]
  }

  /** The eight five-bit digits of five bytes. */
  function Fives(a: byte, b: byte, c: byte, d: byte, e: byte): (r: seq<nat>)
    ensures |r| == 8
  {
    [a / 8, a % 8 * 4 + b / 64, b / 2 % 32, b % 2 * 16 + c / 16, c % 16 * 2 + d / 128, d / 4 % 32, d % 4 * 8 + e / 32, e % 32]
  }

  lemma DigitsUnfold(v: nat, base: nat, n: nat)
    requires IsBase(base) && n > 0
    ensures Digits(v, base, n) == Digits(v / base, base, n - 1) + [v % base]
  {
  }

  lemma DigitsNone(v: nat, base: nat)
    requires IsBase(base)
    ensures Digits(v, base, 0) == []
  {
  }

  lemma DigitsOne(v: nat, base: nat)
    requires IsBase(base) && v < base
    ensures Digits(v, base, 1) == [v]
  {
    hide Digits;
    DigitsUnfold(v, base, 1);
    if base == 32 {
      assert v / 32 == 0 && v % 32 == v;
    } else if base == 64 {
      assert v / 64 == 0 && v % 64 == v;
    } else {
      assert v / 256 == 0 && v % 256 == v;
    }
    DigitsNone(v / base, base);
  }

  lemma SixesAre(a: byte, b: byte, c: byte)
    ensures Digits(a * 0x1_0000 + b * 0x100 + c, 64, 4) == Sixes(a, b, c)
  {
    hide Digits;
    var v := a * 0x1_0000 + b * 0x100 + c;
    var v1 := a * 1024 + b * 4 + c / 64;
    var v2 := a * 16 + b / 16;
    assert v / 64 == v1 && v % 64 == c % 64;
    assert v1 / 64 == v2 && v1 % 64 == b % 16 * 4 + c / 64;
    assert v2 / 64 == a / 4 && v2 % 64 == a % 4 * 16 + b / 16;
    DigitsUnfold(v, 64, 4);
    DigitsUnfold(v1, 64, 3);
    DigitsUnfold(v2, 64, 2);
    DigitsOne(a / 4, 64);
  }

  lemma LowFives(a: byte, b: byte, c: byte, d: byte, e: byte)
    ensures var v := a * 0x1_0000_0000 + b * 0x100_0000 + c * 0x1_0000 + d * 0x100 + e;
            var w := a * 0x1000 + b * 16 + c / 16;
            Digits(v, 32, 8) == Digits(w, 32, 4) + [c % 16 * 2 + d / 128, d / 4 % 32, d % 4 * 8 + e / 32, e % 32]
  {
    hide Digits;
    var v := a * 0x1_0000_0000 + b * 0x100_0000 + c * 0x1_0000 + d * 0x100 + e;
    var v1 := a * 0x800_0000 + b * 0x8_0000 + c * 0x800 + d * 8 + e / 32;
    var v2 := a * 0x40_0000 + b * 0x4000 + c * 64 + d / 4;
    var v3 := a * 0x2_0000 + b * 0x200 + c * 2 + d / 128;
    var v4 := a * 0x1000 + b * 16 + c / 16;
    assert v / 32 == v1 && v % 32 == e % 32;
    assert v1 / 32 == v2 && v1 % 32 == d % 4 * 8 + e / 32;
    assert v2 / 32 == v3 && v2 % 32 == d / 4 % 32;
    assert v3 / 32 == v4 && v3 % 32 == c % 16 * 2 + d / 128;
    DigitsUnfold(v, 32, 8);
    DigitsUnfold(v1, 32, 7);
    DigitsUnfold(v2, 32, 6);
    DigitsUnfold(v3, 32, 5);
  }

  lemma HighFives(a: byte, b: byte, c: byte)
    ensures Digits(a * 0x1000 + b * 16 + c / 16, 32, 4) == [a / 8, a % 8 * 4 + b / 64, b / 2 % 32, b % 2 * 16 + c / 16]
  {
    hide Digits;
    var v := a * 0x1000 + b * 16 + c / 16;
    var v1 := a * 128 + b / 2;
    var v2 := a * 4 + b / 64;
    assert v / 32 == v1 && v % 32 == b % 2 * 16 + c / 16;
    assert v1 / 32 == v2 && v1 % 32 == b / 2 % 32;
    assert v2 / 32 == a / 8 && v2 % 32 == a % 8 * 4 + b / 64;
    DigitsUnfold(v, 32, 4);
    DigitsUnfold(v1, 32, 3);
    DigitsUnfold(v2, 32, 2);
    DigitsOne(a / 8, 32);
  }

  lemma FivesAre(a: byte, b: byte, c: byte, d: byte, e: byte)
    ensures Digits(a * 0x1_0000_0000 + b * 0x100_0000 + c * 0x1_0000 + d * 0x100 + e, 32, 8) == Fives(a, b, c, d, e)
  {
    hide Digits;
    LowFives(a, b, c, d, e);
    HighFives(a, b, c);
  }

  lemma NumberUnfold(x: seq<byte>)
    requires x != []
    ensures Number(x, 256) == 256 * Number(x[..|x| - 1], 256) + x[|x| - 1]
  {
  }

  lemma {:induction false} NumberOf(x: seq<byte>)
    ensures |x| == 1 ==> Number(x, 256) == x[0]
    ensures |x| == 2 ==> Number(x, 256) == x[0] as int * 0x100 + x[1]
    ensures |x| == 3 ==> Number(x, 256) == x[0] as int * 0x1_0000 + x[1] as int * 0x100 + x[2]
    ensures |x| == 4 ==> Number(x, 256) == x[0] as int * 0x100_0000 + x[1] as int * 0x1_0000 + x[2] as int * 0x100 + x[3]
    ensures |x| == 5 ==> Number(x, 256) == x[0] as int * 0x1_0000_0000 + x[1] as int * 0x100_0000 + x[2] as int * 0x1_0000 + x[3] as int * 0x100 + x[4]
    decreases |x|
  {
    if 1 <= |x| <= 5 {
      NumberUnfold(x);
      NumberOf(x[..|x| - 1]);
      assert Number([], 256) == 0;
    }
  }

  /** The digits of a group of one to three bytes: as many of the four as there are bits for. */
  lemma Group64(x: seq<byte>)
    requires 1 <= |x| <= 3
    ensures EncodeGroup(Base64, x) == Sixes(At(x, 0), At(x, 1), At(x, 2))[..|x| + 1]
  {
    hide Digits, Number;
    var v := At(x, 0) * 0x1_0000 + At(x, 1) * 0x100 + At(x, 2);
    NumberOf(x);
    SixesAre(At(x, 0), At(x, 1), At(x, 2));
    DigitsUnfold(v, 64, 4);
    DigitsUnfold(v / 64, 64, 3);
    if |x| == 1 {
      assert v / 64 / 64 == x[0] as int * 16;
    } else if |x| == 2 {
      assert v / 64 == (x[0] as int * 0x100 + x[1]) * 4;
    } else {
      assert Sixes(At(x, 0), At(x, 1), At(x, 2))[..4] == Sixes(At(x, 0), At(x, 1), At(x, 2));
    }
  }

  /** The digits of a group of one to five bytes. */
  lemma Group32(x: seq<byte>)
    requires 1 <= |x| <= 5
    ensures EncodeGroup(Base32, x) == Fives(At(x, 0), At(x, 1), At(x, 2), At(x, 3), At(x, 4))[..Chars(Base32, |x|)]
  {
    hide Digits, Number;
    var n := Number(x, 256);
    NumberOf(x);
    FivesAre(At(x, 0), At(x, 1), At(x, 2), At(x, 3), At(x, 4));
    var all := Fives(At(x, 0), At(x, 1), At(x, 2), At(x, 3), At(x, 4));
    if |x| == 1 {
      SixFewer(n * 0x1_0000_0000);
      assert n * 0x1_0000_0000 / 0x4000_0000 == n * 4;
    } else if |x| == 2 {
      SixFewer(n * 0x100_0000);
      assert n * 0x100_0000 / 0x10_0000 == n * 16;
    } else if |x| == 3 {
      SixFewer(n * 0x1_0000);
      assert n * 0x1_0000 / 0x8000 == n * 2;
    } else if |x| == 4 {
      SixFewer(n * 0x100);
      assert n * 0x100 / 32 == n * 8;
    } else {
      assert all[..8] == all;
    }
  }

  /** Leaving out digits at the end. */
  lemma SixFewer(v: nat)
    ensures Digits(v, 32, 8)[..7] == Digits(v / 32, 32, 7)
    ensures Digits(v, 32, 8)[..5] == Digits(v / 0x8000, 32, 5)
    ensures Digits(v, 32, 8)[..4] == Digits(v / 0x10_0000, 32, 4)
    ensures Digits(v, 32, 8)[..2] == Digits(v / 0x4000_0000, 32, 2)
  {
    hide Digits;
    DigitsUnfold(v, 32, 8);
    DigitsUnfold(v / 32, 32, 7);
    DigitsUnfold(v / 0x400, 32, 6);
    DigitsUnfold(v / 0x8000, 32, 5);
    DigitsUnfold(v / 0x10_0000, 32, 4);
    DigitsUnfold(v / 0x200_0000, 32, 3);
    assert v / 32 / 32 == v / 0x400 && v / 0x400 / 32 == v / 0x8000 && v / 0x8000 / 32 == v / 0x10_0000;
    assert v / 0x10_0000 / 32 == v / 0x200_0000 && v / 0x200_0000 / 32 == v / 0x4000_0000;
    var d := Digits(v, 32, 8);
    var d7, d6, d5 := Digits(v / 32, 32, 7), Digits(v / 0x400, 32, 6), Digits(v / 0x8000, 32, 5);
    var d4, d3, d2 := Digits(v / 0x10_0000, 32, 4), Digits(v / 0x200_0000, 32, 3), Digits(v / 0x4000_0000, 32, 2);
    assert d[..7] == d7 && d7[..6] == d6 && d6[..5] == d5 && d5[..4] == d4 && d4[..3] == d3 && d3[..2] == d2;
    assert d[..5] == d7[..6][..5] && d[..4] == d[..5][..4] && d[..2] == d[..4][..3][..2];
  }

  // ------------------------------------------------------------------------ whole texts

  /** The characters of digits. */
  function Letters(alphabet: string, d: seq<nat>): (s: string)
    requires forall i :: 0 <= i < |d| ==> d[i] < |alphabet|
    ensures |s| == |d|
  {
    seq(|d|, i requires 0 <= i < |d| => alphabet[d[i]])
  }

  lemma Letters64(x: seq<byte>)
    requires 1 <= |x| <= 3
    ensures var d := Sixes(At(x, 0), At(x, 1), At(x, 2))[..|x| + 1];
            (forall i :: 0 <= i < |d| ==> d[i] < 64) && GroupText(Base64, x) == Letters(ALPHABET_64, d)
  {
    hide EncodeGroup, CharOf, Sixes, GroupText;
    SixesBelow(At(x, 0), At(x, 1), At(x, 2));
    Group64(x);
    TextOf(Base64, x);
  }

  lemma Letters32(x: seq<byte>)
    requires 1 <= |x| <= 5
    ensures var d := Fives(At(x, 0), At(x, 1), At(x, 2), At(x, 3), At(x, 4))[..Chars(Base32, |x|)];
            (forall i :: 0 <= i < |d| ==> d[i] < 32) && GroupText(Base32, x) == Letters(ALPHABET_32, d)
  {
    hide EncodeGroup, CharOf, Fives, GroupText;
    FivesBelow(At(x, 0), At(x, 1), At(x, 2), At(x, 3), At(x, 4));
    Group32(x);
    TextOf(Base32, x);
  }

  /** Base64: three bytes to four characters, one byte to two and `==`, two bytes to three and `=`. */
  lemma Base64Text(x: seq<byte>)
    ensures x == [] ==> Encode64(x) == ""
    ensures |x| == 1 ==> Encode64(x) == Letters(ALPHABET_64, Sixes(x[0], 0, 0)[..2]) + "=="
    ensures |x| == 2 ==> Encode64(x) == Letters(ALPHABET_64, Sixes(x[0], x[1], 0)[..3]) + "="
    ensures |x| >= 3 ==> Encode64(x) == Letters(ALPHABET_64, Sixes(x[0], x[1], x[2])) + Encode64(x[3..])
  {
    hide GroupText, Sixes, Letters, Encode64;
    SixesBelow(At(x, 0), At(x, 1), At(x, 2));
    PadTexts();
    Unfold64(x);
    if |x| >= 3 {
      Letters64(x[..3]);
      var d := Sixes(x[0], x[1], x[2]);
      assert d[..4] == d;
    } else if x != [] {
      Letters64(x);
    }
  }

  lemma Unfold64(x: seq<byte>)
    ensures x == [] ==> Encode64(x) == ""
    ensures 1 <= |x| < 3 ==> Encode64(x) == GroupText(Base64, x) + Pads(3 - |x|)
    ensures |x| >= 3 ==> Encode64(x) == GroupText(Base64, x[..3]) + Encode64(x[3..])
  {
    hide GroupText, Pads;
  }

  lemma PadTexts()
    ensures Pads(1) == "=" && Pads(2) == "==" && Pads(3) == "===" && Pads(4) == "====" && Pads(6) == "======"
  {
  }

  lemma SixesBelow(a: byte, b: byte, c: byte)
    ensures forall i :: 0 <= i < 4 ==> Sixes(a, b, c)[i] < 64
  {
  }

  lemma FivesBelow(a: byte, b: byte, c: byte, d: byte, e: byte)
    ensures forall i :: 0 <= i < 8 ==> Fives(a, b, c, d, e)[i] < 32
  {
  }

  /** Base32: five bytes to eight characters, fewer to two, four, five or seven, filled up with `=` where padding is on. */
  lemma Base32Text(x: seq<byte>, padding: bool)
    ensures x == [] ==> Encode32(x, padding) == ""
    ensures |x| == 1 ==> Encode32(x, padding) == Letters(ALPHABET_32, Fives(x[0], 0, 0, 0, 0)[..2]) + if padding then "======" else ""
    ensures |x| == 2 ==> Encode32(x, padding) == Letters(ALPHABET_32, Fives(x[0], x[1], 0, 0, 0)[..4]) + if padding then "====" else ""
    ensures |x| == 3 ==> Encode32(x, padding) == Letters(ALPHABET_32, Fives(x[0], x[1], x[2], 0, 0)[..5]) + if padding then "===" else ""
    ensures |x| == 4 ==> Encode32(x, padding) == Letters(ALPHABET_32, Fives(x[0], x[1], x[2], x[3], 0)[..7]) + if padding then "=" else ""
    ensures |x| >= 5 ==>
              Encode32(x, padding) == Letters(ALPHABET_32, Fives(x[0], x[1], x[2], x[3], x[4])) + Encode32(x[5..], padding)
  {
    hide GroupText, Fives, Letters;
    FivesBelow(At(x, 0), At(x, 1), At(x, 2), At(x, 3), At(x, 4));
    PadTexts();
    if |x| >= 5 {
      Letters32(x[..5]);
      var d := Fives(x[0], x[1], x[2], x[3], x[4]);
      assert d[..8] == d;
    } else if x != [] {
      Letters32(x);
    }
  }
}
