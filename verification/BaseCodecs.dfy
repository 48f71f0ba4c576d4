/** The two encoders and decoders, digit by digit. */
module BaseCodecs {
  import opened Octets
  import opened Text
  import opened DigitGroups
  import opened BaseText

  datatype DecodeResult = Ok(value: seq<byte>) | Invalid

  // --------------------------------------------------------------------- Base64 by digits

  lemma NumberOne(a: nat, base: nat)
    ensures Number([a], base) == a
  {
    assert [a][..0] == [];
    assert Number([a], base) == base * Number([], base) + a;
  }

  lemma NumberTwo(a: nat, b: nat, base: nat)
    ensures Number([a, b], base) == base * a + b
  {
    NumberOne(a, base);
    assert [a, b][..1] == [a];
  }

  lemma NumberThree(a: nat, b: nat, c: nat, base: nat)
    ensures Number([a, b, c], base) == base * (base * a + b) + c
  {
    NumberTwo(a, b, base);
    assert [a, b, c][..2] == [a, b];
  }

  lemma NumberFour(a: nat, b: nat, c: nat, d: nat, base: nat)
    ensures Number([a, b, c, d], base) == base * (base * (base * a + b) + c) + d
  {
    NumberThree(a, b, c, base);
    assert [a, b, c, d][..3] == [a, b, c];
  }

  lemma Encode1(a: byte)
    ensures EncodeGroup(Base64, [a]) == [a / 4, a % 4 * 16]
  {
    hide Power, Digits, Number;
    NumberOne(a, 256);
    NumberTwo(a / 4, a % 4 * 16, 64);
    DigitsNumber([a / 4, a % 4 * 16], 64);
    assert a * 16 == 64 * (a / 4) + a % 4 * 16;
  }

  lemma Encode2(a: byte, b: byte)
    ensures EncodeGroup(Base64, [a, b]) == [a / 4, a % 4 * 16 + b / 16, b % 16 * 4]
  {
    hide Power, Digits, Number;
    var d := [a / 4, a % 4 * 16 + b / 16, b % 16 * 4];
    NumberTwo(a, b, 256);
    NumberThree(d[0], d[1], d[2], 64);
    DigitsNumber(d, 64);
    assert (256 * a + b) * 4 == 64 * (64 * d[0] + d[1]) + d[2];
  }

  lemma Encode3(a: byte, b: byte, c: byte)
    ensures EncodeGroup(Base64, [a, b, c]) == [a / 4, a % 4 * 16 + b / 16, b % 16 * 4 + c / 64, c % 64]
  {
    hide Power, Digits, Number;
    var d := [a / 4, a % 4 * 16 + b / 16, b % 16 * 4 + c / 64, c % 64];
    NumberThree(a, b, c, 256);
    NumberFour(d[0], d[1], d[2], d[3], 64);
    DigitsNumber(d, 64);
    assert 256 * (256 * a + b) + c == 64 * (64 * (64 * d[0] + d[1]) + d[2]) + d[3];
  }

  lemma Decode2(p: nat, q: nat)
    requires p < 64 && q < 64
    ensures DecodeGroup(Base64, [p, q], 1) == if q % 16 != 0 then None else Some([p * 4 + q / 16])
  {
    hide Power, Digits, Number;
    NumberTwo(p, q, 64);
    var v := 64 * p + q;
    assert v % 16 == q % 16 && v / 16 == 4 * p + q / 16;
    NumberOne(p * 4 + q / 16, 256);
    DigitsNumber([p * 4 + q / 16], 256);
  }

  lemma Decode3(p: nat, q: nat, r: nat)
    requires p < 64 && q < 64 && r < 64
    ensures DecodeGroup(Base64, [p, q, r], 2) == if r % 4 != 0 then None else Some([p * 4 + q / 16, q % 16 * 16 + r / 4])
  {
    hide Power, Digits, Number;
    NumberThree(p, q, r, 64);
    var x := [p * 4 + q / 16, q % 16 * 16 + r / 4];
    Quarter(64 * p + q, r);
    NumberTwo(x[0], x[1], 256);
    DigitsNumber(x, 256);
    assert 16 * (64 * p + q) + r / 4 == 256 * x[0] + x[1];
  }

  lemma Quarter(k: nat, r: nat)
    ensures (64 * k + r) % 4 == r % 4 && (64 * k + r) / 4 == 16 * k + r / 4
  {
    assert 64 * k + r == 4 * (16 * k + r / 4) + r % 4;
  }

  lemma Decode4(p: nat, q: nat, r: nat, s: nat)
    requires p < 64 && q < 64 && r < 64 && s < 64
    ensures DecodeGroup(Base64, [p, q, r, s], 3) == Some([p * 4 + q / 16, q % 16 * 16 + r / 4, r % 4 * 64 + s])
  {
    hide Power, Digits, Number;
    NumberFour(p, q, r, s, 64);
    var x := [p * 4 + q / 16, q % 16 * 16 + r / 4, r % 4 * 64 + s];
    NumberThree(x[0], x[1], x[2], 256);
    DigitsNumber(x, 256);
    assert 64 * (64 * (64 * p + q) + r) + s == 256 * (256 * x[0] + x[1]) + x[2];
  }

  lemma Text1(a: byte)
    ensures GroupText(Base64, [a]) == [CharOf(Base64, a / 4), CharOf(Base64, a % 4 * 16)]
  {
    hide EncodeGroup, CharOf;
    Encode1(a);
  }

  lemma Text2(a: byte, b: byte)
    ensures GroupText(Base64, [a, b]) == [CharOf(Base64, a / 4), CharOf(Base64, a % 4 * 16 + b / 16), CharOf(Base64, b % 16 * 4)]
  {
    hide EncodeGroup, CharOf;
    Encode2(a, b);
  }

  lemma Text3(a: byte, b: byte, c: byte)
    ensures GroupText(Base64, [a, b, c]) == [CharOf(Base64, a / 4), CharOf(Base64, a % 4 * 16 + b / 16),
                                             CharOf(Base64, b % 16 * 4 + c / 64), CharOf(Base64, c % 64)]
  {
    hide EncodeGroup, CharOf;
    Encode3(a, b, c);
  }

  /** One to three bytes as four characters. */
  method EncodeThree(data: seq<byte>) returns (text: string)
    requires 1 <= |data|
    ensures text == if |data| < 3 then Encode64(data) else GroupText(Base64, data[..3])
  {
    hide CharOf, GroupText;
    var first := data[0];
    var second: byte := if 1 < |data| then data[1] else 0;
    var third: byte := if 2 < |data| then data[2] else 0;
    text := [CharOf(Base64, first / 4), CharOf(Base64, first % 4 * 16 + second / 16)];
    if |data| == 1 {
      assert data == [first];
      Text1(first);
      text := text + "==";
      assert Pads(2) == "==";
      return;
    }
    text := text + [CharOf(Base64, second % 16 * 4 + third / 64)];
    if |data| == 2 {
      assert data == [first, second];
      Text2(first, second);
      text := text + "=";
      assert Pads(1) == "=";
      return;
    }
    assert data[..3] == [first, second, third];
    Text3(first, second, third);
    text := text + [CharOf(Base64, third % 64)];
  }

  method EncodeBase64(data: seq<byte>) returns (text: string)
    ensures text == Encode64(data)
  {
    hide GroupText;
    text := "";
    var i := 0;
    assert data[0..] == data;
    while i < |data|
      invariant 0 <= i && (i <= |data| ==> text + Encode64(data[i..]) == Encode64(data))
      invariant i > |data| ==> text == Encode64(data)
      decreases |data| - i
    {
      ghost var rest := data[i..];
      var group := EncodeThree(data[i..]);
      if i + 3 <= |data| {
        assert rest[3..] == data[i + 3..];
        assert Encode64(rest) == group + Encode64(data[i + 3..]);
      }
      text := text + group;
      i := i + 3;
    }
  }

  /** One group of four characters; padding is only looked at in the last one. */
  method DecodeFour(s: string, last: bool) returns (r: Option<seq<byte>>)
    requires |s| == 4
    ensures r == if last then Decode64(s) else TextGroup(Base64, s, 3)
  {
    hide DecodeGroup, DigitOf;
    var b0, b1 := DigitOf(Base64, s[0]), DigitOf(Base64, s[1]);
    PadIndex();
    if b0 < 0 || b1 < 0 {
      BadIndex(s, if b0 < 0 then 0 else 1);
      return None;
    }
    var pad2, pad3 := s[2] == '=', s[3] == '=';
    if pad2 && !pad3 {
      BadIndex(s, 2);
      return None;
    }
    if (pad2 || pad3) && !last {
      BadIndex(s, 3);
      return None;
    }
    if pad2 {
      Decode2(b0, b1);
      assert s[..2] == [s[0], s[1]];
      IndicesTwo(s[..2]);
      if b1 % 16 != 0 {
        return None;
      }
      return Some([b0 * 4 + b1 / 16]);
    }
    var b2 := DigitOf(Base64, s[2]);
    if b2 < 0 {
      BadIndex(s, 2);
      return None;
    }
    if pad3 {
      Decode3(b0, b1, b2);
      IndicesThree(s[..3]);
      if b2 % 4 != 0 {
        return None;
      }
      return Some([b0 * 4 + b1 / 16, b1 % 16 * 16 + b2 / 4]);
    }
    var b3 := DigitOf(Base64, s[3]);
    assert s[..4] == s;
    if b3 < 0 {
      BadIndex(s, 3);
      return None;
    }
    Decode4(b0, b1, b2, b3);
    IndicesFour(s);
    r := Some([b0 * 4 + b1 / 16, b1 % 16 * 16 + b2 / 4, b2 % 4 * 64 + b3]);
  }

  lemma PadIndex()
    ensures DigitOf(Base64, '=') < 0
  {
  }

  /** A character off the alphabet within a group spoils it. */
  lemma BadIndex(s: string, k: nat)
    requires |s| == 4 && k < 4 && DigitOf(Base64, s[k]) < 0
    ensures TextGroup(Base64, s, 3) == None
    ensures k <= LastSize(s) ==> Decode64(s) == None
  {
    hide DecodeGroup, DigitOf;
    assert s[..4] == s;
    var t := LastSize(s);
    if k <= t {
      assert s[..t + 1][k] == s[k];
    }
  }

  lemma IndicesTwo(s: string)
    requires |s| == 2 && forall i :: 0 <= i < 2 ==> DigitOf(Base64, s[i]) >= 0
    ensures Indices(Base64, s) == Some([DigitOf(Base64, s[0]), DigitOf(Base64, s[1])])
  {
    hide DigitOf;
    var d := Indices(Base64, s).value;
    assert d == [d[0], d[1]];
  }

  lemma IndicesThree(s: string)
    requires |s| == 3 && forall i :: 0 <= i < 3 ==> DigitOf(Base64, s[i]) >= 0
    ensures Indices(Base64, s) == Some([DigitOf(Base64, s[0]), DigitOf(Base64, s[1]), DigitOf(Base64, s[2])])
  {
    hide DigitOf;
    var d := Indices(Base64, s).value;
    assert d == [d[0], d[1], d[2]];
  }

  lemma IndicesFour(s: string)
    requires |s| == 4 && forall i :: 0 <= i < 4 ==> DigitOf(Base64, s[i]) >= 0
    ensures Indices(Base64, s) == Some([DigitOf(Base64, s[0]), DigitOf(Base64, s[1]), DigitOf(Base64, s[2]), DigitOf(Base64, s[3])])
  {
    hide DigitOf;
    var d := Indices(Base64, s).value;
    assert d == [d[0], d[1], d[2], d[3]];
  }

  /** Accepts exactly the texts that encoding produces. */
  method DecodeBase64(src: string) returns (r: DecodeResult)
    ensures r.Ok? ==> src == Encode64(r.value)
    ensures r.Invalid? ==> forall x :: src != Encode64(x)
  {
    hide TextGroup, Encode64;
    forall x
      ensures Decode64(src) == Some(x) <==> src == Encode64(x)
    {
      Base64Iff(src, x);
    }
    if |src| % 4 != 0 {
      WholeLength(src);
      return Invalid;
    }
    var output: seq<byte> := [];
    var i := 0;
    assert src[0..] == src;
    PrefixedNone(Decode64(src));
    while i < |src|
      invariant 0 <= i <= |src| && (|src| - i) % 4 == 0
      invariant Decode64(src) == Prefixed(output, Decode64(src[i..]))
      invariant i == |src| ==> Decode64(src[i..]) == Some([])
    {
      ghost var rest := src[i..];
      var group := DecodeFour(src[i..i + 4], i + 4 == |src|);
      assert rest[..4] == src[i..i + 4] && rest[4..] == src[i + 4..];
      if i + 4 == |src| {
        assert rest == src[i..i + 4] && src[i + 4..] == "";
      }
      if group.None? {
        assert Decode64(rest).None?;
        return Invalid;
      }
      PrefixedTwice(output, group.value, Decode64(src[i + 4..]));
      output := output + group.value;
      i := i + 4;
    }
    PrefixedTwice([], output, None);
    r := Ok(output);
  }

  lemma PrefixedNone(r: Option<seq<byte>>)
    ensures Prefixed([], r) == r
  {
    if r.Some? {
      assert [] + r.value == r.value;
    }
  }

  function Prefixed(head: seq<byte>, r: Option<seq<byte>>): Option<seq<byte>> {
    if r.Some? then Some(head + r.value) else None
  }

  lemma PrefixedTwice(a: seq<byte>, b: seq<byte>, r: Option<seq<byte>>)
    ensures Prefixed(a, Prefixed(b, r)) == Prefixed(a + b, r)
    ensures Prefixed(b, Some([])) == Some(b)
  {
    assert b + [] == b;
    if r.Some? {
      assert a + (b + r.value) == a + b + r.value;
    }
  }

  lemma {:induction false} WholeLength(s: string)
    ensures Decode64(s).Some? ==> |s| % 4 == 0
    decreases |s|
  {
    if |s| > 4 {
      WholeLength(s[4..]);
      assert |s| == |s[4..]| + 4;
      assert Decode64(s).Some? ==> Decode64(s[4..]).Some?;
      assert Decode64(s).Some? ==> |s| % 4 == 0;
    } else if |s| == 4 {
    } else if s == "" {
      assert |s| == 0;
    } else {
      assert Decode64(s).None?;
    }
  }

  // --------------------------------------------------------------------- Base32 by shifts

  lemma PowerPositive(base: nat, n: nat)
    requires base > 0
    ensures Power(base, n) > 0
  {
    if n > 0 {
      PowerPositive(base, n - 1);
      assert base * Power(base, n - 1) > 0;
    }
  }

  lemma QuotientIs(v: nat, p: nat, q: nat, m: nat)
    requires p > 0 && v == p * q + m && m < p
    ensures v / p == q
  {
    var x := v / p - q;
    assert v == p * (v / p) + v % p;
    assert p * x == p * (v / p) - p * q;
    Multiple(p, x);
  }

  lemma Multiple(p: int, x: int)
    requires p > 0
    ensures (x >= 1 ==> p * x >= p) && (x <= -1 ==> p * x <= -p)
  {
    if x >= 1 {
      assert p * (x - 1) >= 0;
    } else if x <= -1 {
      assert p * (-1 - x) >= 0;
    }
  }

  /** Dividing twice is dividing by the product. */
  lemma DivideTwice(v: nat, a: nat, b: nat)
    requires a > 0 && b > 0
    ensures a * b > 0 && v / a / b == v / (a * b)
  {
    var q, m := v / a, v % a;
    var r, n := q / b, q % b;
    assert q == b * r + n;
    assert v == a * q + m;
    Regrouped(a, b, q, r, n, m);
    QuotientIs(v, a * b, r, a * n + m);
  }

  lemma Regrouped(a: nat, b: nat, q: nat, r: nat, n: nat, m: nat)
    requires a > 0 && b > 0 && q == b * r + n && m < a && n < b
    ensures a * b > 0 && a * q + m == a * b * r + (a * n + m) && a * n + m < a * b
  {
    assert a * (b * r) == a * b * r;
    Multiple(a, b - n);
    assert a * (b - n) == a * b - a * n;
    Multiple(a, b);
  }

  /** A common factor cancels. */
  lemma CancelFactor(v: nat, p: nat, k: nat)
    requires p > 0 && k > 0
    ensures p * k > 0 && v * k / (p * k) == v / p
  {
    var q, m := v / p, v % p;
    assert v == p * q + m;
    assert p * k > 0;
    assert v * k == p * k * q + m * k by {
      assert (p * q + m) * k == p * q * k + m * k;
      assert p * q * k == p * k * q;
    }
    assert m * k < p * k;
    QuotientIs(v * k, p * k, q, m * k);
  }

  lemma {:induction false} DigitAt(v: nat, base: nat, n: nat, i: nat)
    requires IsBase(base) && i < n
    ensures Power(base, n - 1 - i) > 0 && Digits(v, base, n)[i] == v / Power(base, n - 1 - i) % base
    decreases n
  {
    PowerPositive(base, n - 1 - i);
    if i < n - 1 {
      DigitAt(v / base, base, n - 1, i);
      DivideTwice(v, base, Power(base, n - 2 - i));
      assert Power(base, n - 1 - i) == base * Power(base, n - 2 - i);
    } else {
      assert Power(base, 0) == 1;
    }
  }

  /** The bits from a group's end up to forty. */
  function Room(t: nat): nat {
    if t == 1 then 0x1_0000_0000 else if t == 2 then 0x100_0000 else if t == 3 then 0x1_0000
    else if t == 4 then 0x100 else 1
  }

  /** A digit of a group, read from the group aligned to the top of forty bits. */
  lemma AlignedDigit(x: seq<byte>, j: nat)
    requires 1 <= |x| <= 5 && j < Chars(Base32, |x|)
    ensures Power(32, 7 - j) > 0
    ensures EncodeGroup(Base32, x)[j] == Number(x, 256) * Room(|x|) / Power(32, 7 - j) % 32
  {
    hide Digits, Number, Power, Room;
    var t := |x|;
    var n := Chars(Base32, t);
    var v, k := Number(x, 256) * Scale(Base32, t), Power(32, 8 - n);
    DigitAt(v, 32, n, j);
    PowerPositive(32, 8 - n);
    PowerPositive(32, n - 1 - j);
    CancelFactor(v, Power(32, n - 1 - j), k);
    PowerAdd(32, n - 1 - j, 8 - n);
    RoomIs(t);
    assert v * k == Number(x, 256) * Room(t) by {
      assert Number(x, 256) * Scale(Base32, t) * k == Number(x, 256) * (Scale(Base32, t) * k);
    }
  }

  lemma {:induction false} PowerAdd(base: nat, m: nat, n: nat)
    ensures Power(base, m + n) == Power(base, m) * Power(base, n)
    decreases m
  {
    if m > 0 {
      PowerAdd(base, m - 1, n);
      assert base * (Power(base, m - 1) * Power(base, n)) == base * Power(base, m - 1) * Power(base, n);
    }
  }

  lemma RoomIs(t: nat)
    requires 1 <= t <= 5
    ensures Scale(Base32, t) * Power(32, 8 - Chars(Base32, t)) == Room(t)
    ensures Room(t) == Power(256, 5 - t)
  {
    Powers256();
    Powers32();
    assert Power(32, 0) == 1 && Power(32, 1) == 32;
    assert Power(32, 3) == 32 * Power(32, 2);
    assert Power(32, 6) == 32 * Power(32, 5);
    assert Power(256, 0) == 1;
  }

  /** A byte of a decoded group, read from its digits aligned to the top of forty bits. */
  lemma AlignedByte(d: seq<nat>, t: nat, j: nat)
    requires 1 <= t <= 5 && |d| == Chars(Base32, t) && j < t && Number(d, 32) % Scale(Base32, t) == 0
    ensures Power(256, 4 - j) > 0
    ensures DecodeGroup(Base32, d, t).value[j] == Number(d, 32) * Power(32, 8 - |d|) / Power(256, 4 - j) % 256
  {
    hide Digits, Number;
    var v, k := Number(d, 32), Scale(Base32, t);
    DigitAt(v / k, 256, t, j);
    PowerPositive(256, t - 1 - j);
    PowerPositive(256, 5 - t);
    CancelFactor(v / k, Power(256, t - 1 - j), Power(256, 5 - t));
    PowerAdd(256, t - 1 - j, 5 - t);
    RoomIs(t);
    assert v / k * Power(256, 5 - t) == v * Power(32, 8 - |d|) by {
      assert v == v / k * k;
      assert v / k * (k * Power(32, 8 - |d|)) == v / k * k * Power(32, 8 - |d|);
    }
  }

  /** The number of the bytes, folded from the left. */
  method Accumulate(x: seq<nat>, base: nat) returns (acc: nat)
    ensures acc == Number(x, base)
  {
    acc := 0;
    var i := 0;
    while i < |x|
      invariant 0 <= i <= |x| && acc == Number(x[..i], base)
    {
      assert x[..i + 1][..i] == x[..i];
      acc := acc * base + x[i];
      i := i + 1;
    }
    assert x[..i] == x;
  }

  method EncodeFive(x: seq<byte>) returns (text: string)
    requires 1 <= |x| <= 5
    ensures text == GroupText(Base32, x)
  {
    hide EncodeGroup, CharOf, Number, Chars, Power;
    var acc := Accumulate(x, 256);
    acc := acc * Room(|x|);
    var n := Chars(Base32, |x|);
    text := "";
    var j := 0;
    while j < n
      invariant 0 <= j <= n && |text| == j
      invariant forall k :: 0 <= k < j ==> text[k] == CharOf(Base32, EncodeGroup(Base32, x)[k])
    {
      AtMostEight(|x|);
      AlignedDigit(x, j);
      text := text + [CharOf(Base32, acc / Power(32, 7 - j) % 32)];
      j := j + 1;
    }
  }

  lemma AtMostEight(t: nat)
    ensures Chars(Base32, t) <= 8
  {
  }

  method EncodeBase32(data: seq<byte>, padding: bool) returns (text: string)
    ensures text == Encode32(data, padding)
  {
    hide GroupText;
    text := "";
    var i := 0;
    assert data[0..] == data;
    while i + 5 <= |data|
      invariant 0 <= i <= |data| && text + Encode32(data[i..], padding) == Encode32(data, padding)
    {
      ghost var rest := data[i..];
      var group := EncodeFive(data[i..i + 5]);
      assert rest[..5] == data[i..i + 5] && rest[5..] == data[i + 5..];
      assert Encode32(rest, padding) == group + Encode32(data[i + 5..], padding);
      text := text + group;
      i := i + 5;
    }
    if i < |data| {
      var tail := EncodeFive(data[i..]);
      if padding {
        tail := tail + Pads(8 - Chars(Base32, |data| - i));
      }
      assert tail == Encode32(data[i..], padding);
      text := text + tail;
    } else {
      assert data[i..] == [];
    }
  }

  /** The digits of a group, or none when a character is off the alphabet. */
  method FindDigits(s: string) returns (d: Option<seq<nat>>)
    ensures d == Indices(Base32, s)
  {
    hide DigitOf;
    var digits: seq<nat> := [];
    var i := 0;
    while i < |s|
      invariant 0 <= i <= |s| && |digits| == i
      invariant forall k :: 0 <= k < i ==> DigitOf(Base32, s[k]) >= 0 && digits[k] == DigitOf(Base32, s[k])
    {
      var v := DigitOf(Base32, s[i]);
      if v < 0 {
        assert Indices(Base32, s).None?;
        return None;
      }
      digits := digits + [v];
      i := i + 1;
    }
    assert digits == Indices(Base32, s).value;
    d := Some(digits);
  }

  /** A group of digits, full or short, with its fill bits checked. */
  method DecodeEight(s: string, t: nat) returns (r: Option<seq<byte>>)
    requires 1 <= t <= 5 && |s| == Chars(Base32, t)
    ensures r == TextGroup(Base32, s, t)
  {
    hide Number, Power, Indices;
    var found := FindDigits(s);
    if found.None? {
      return None;
    }
    var d := found.value;
    IndicesBelow(Base32, s);
    var acc := Accumulate(d, 32);
    if acc % Scale(Base32, t) != 0 {
      return None;
    }
    var aligned := acc * Power(32, 8 - |d|);
    ghost var goal := DecodeGroup(Base32, d, t).value;
    var output: seq<byte> := [];
    var j := 0;
    while j < t
      invariant 0 <= j <= t && |output| == j && |goal| == t
      invariant forall k :: 0 <= k < j ==> output[k] == goal[k]
    {
      AlignedByte(d, t, j);
      output := output + [aligned / Power(256, 4 - j) % 256];
      j := j + 1;
    }
    assert output == goal;
    r := Some(output);
  }

  method DecodeGroups(s: string) returns (r: Option<seq<byte>>)
    ensures r == DecodeData(s)
  {
    hide TextGroup;
    var output: seq<byte> := [];
    var i := 0;
    assert s[0..] == s;
    PrefixedNone(DecodeData(s));
    while i + 8 <= |s|
      invariant 0 <= i <= |s| && DecodeData(s) == Prefixed(output, DecodeData(s[i..]))
    {
      ghost var rest := s[i..];
      var group := DecodeEight(s[i..i + 8], 5);
      assert rest[..8] == s[i..i + 8] && rest[8..] == s[i + 8..];
      if group.None? {
        assert DecodeData(rest).None?;
        return None;
      }
      PrefixedTwice(output, group.value, DecodeData(s[i + 8..]));
      output := output + group.value;
      i := i + 8;
    }
    PrefixedTwice([], output, None);
    if i == |s| {
      assert s[i..] == "";
      return Some(output);
    }
    var t := TailSize(|s| - i);
    if t == 0 {
      assert DecodeData(s[i..]).None?;
      return None;
    }
    var tail := DecodeEight(s[i..], t);
    r := Prefixed(output, tail);
  }

  /** Accepts exactly the padded and unpadded texts that encoding produces. */
  method DecodeBase32(src: string) returns (r: DecodeResult)
    ensures r.Ok? ==> src == Encode32(r.value, true) || src == Encode32(r.value, false)
    ensures r.Invalid? ==> forall x, padding :: src != Encode32(x, padding)
  {
    hide DecodeData, Encode32, Pads, TailSize;
    forall x
      ensures Decode32(src) == Some(x) <==> src == Encode32(x, true) || src == Encode32(x, false)
    {
      Base32Iff(src, x);
    }
    var n := FindPad(src);
    if n != |src| {
      var filled := AllPads(src[n..]);
      if !filled || TailSize(n % 8) == 0 || 8 - n % 8 != |src| - n {
        assert Decode32(src).None?;
        return Invalid;
      }
    }
    var data := DecodeGroups(src[..n]);
    if data.None? {
      assert Decode32(src).None?;
      return Invalid;
    }
    r := Ok(data.value);
  }

  method FindPad(s: string) returns (n: nat)
    ensures n == DataLength(s)
  {
    n := 0;
    while n < |s| && s[n] != '='
      invariant 0 <= n <= |s| && '=' !in s[..n]
    {
      assert s[..n + 1] == s[..n] + [s[n]];
      n := n + 1;
    }
    IndexOfIs(s, '=', n);
  }

  method AllPads(s: string) returns (r: bool)
    ensures r <==> s == Pads(|s|)
  {
    var i := 0;
    while i < |s|
      invariant 0 <= i <= |s| && forall k :: 0 <= k < i ==> s[k] == '='
    {
      if s[i] != '=' {
        assert Pads(|s|)[i] == '=';
        return false;
      }
      i := i + 1;
    }
    r := true;
  }
}
