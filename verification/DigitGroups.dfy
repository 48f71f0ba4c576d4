/**
  Base64 and Base32 (sections 4 and 6 of RFC 4648). Both regroup bytes into smaller
  digits: the bytes of a group form one number, zero bits fill it up to whole digits, and
  a decoder that insists on those zero bits accepts one text for each byte string.
 */
module DigitGroups {
  import opened Octets
  import opened Text

  predicate IsBase(base: nat) {
    base == 32 || base == 64 || base == 256
  }

  function Number(s: seq<nat>, base: nat): nat {
    if s == [] then 0 else base * Number(s[..|s| - 1], base) + s[|s| - 1]
  }

  function Digits(v: nat, base: nat, n: nat): (r: seq<nat>)
    requires IsBase(base)
    ensures |r| == n && forall i :: 0 <= i < n ==> r[i] < base
  {
    if n == 0 then [] else Digits(v / base, base, n - 1) + [v % base]
  }

  function Power(base: nat, n: nat): nat {
    if n == 0 then 1 else base * Power(base, n - 1)
  }

  lemma DivideDigit(x: nat, d: nat, base: nat)
    requires IsBase(base) && d < base
    ensures (base * x + d) / base == x && (base * x + d) % base == d
  {
    if base == 32 {
    } else if base == 64 {
    } else {
    }
  }

  lemma DigitSplit(v: nat, base: nat, p: nat)
    requires IsBase(base) && v < base * p
    ensures v / base < p && v == base * (v / base) + v % base
  {
    if base == 32 {
    } else if base == 64 {
    } else {
    }
  }

  lemma {:induction false} NumberDigits(v: nat, base: nat, n: nat)
    requires IsBase(base) && v < Power(base, n)
    ensures Number(Digits(v, base, n), base) == v
  {
    if n > 0 {
      DigitSplit(v, base, Power(base, n - 1));
      NumberDigits(v / base, base, n - 1);
      assert Digits(v, base, n)[..n - 1] == Digits(v / base, base, n - 1);
    }
  }

  lemma {:induction false} DigitsNumber(s: seq<nat>, base: nat)
    requires IsBase(base) && forall i :: 0 <= i < |s| ==> s[i] < base
    ensures Number(s, base) < Power(base, |s|) && Digits(Number(s, base), base, |s|) == s
    decreases |s|
  {
    if s != [] {
      var init, last := s[..|s| - 1], s[|s| - 1];
      DigitsNumber(init, base);
      DivideDigit(Number(init, base), last, base);
      BelowNext(Number(init, base), last, base, Power(base, |s| - 1));
    }
  }

  lemma BelowNext(x: nat, d: nat, base: nat, p: nat)
    requires IsBase(base) && x < p && d < base
    ensures base * x + d < base * p
  {
    if base == 32 {
    } else if base == 64 {
    } else {
    }
  }

  // ------------------------------------------------------------------------------ groups

  datatype Code = Base64 | Base32

  function Base(c: Code): (b: nat)
    ensures IsBase(b)
  {
    if c == Base64 then 64 else 32
  }

  /** How many bytes make a full group. */
  function Whole(c: Code): nat {
    if c == Base64 then 3 else 5
  }

  /** How many digits `t` bytes take. */
  function Chars(c: Code, t: nat): nat {
    if c == Base64 then t + 1
    else if t == 1 then 2 else if t == 2 then 4 else if t == 3 then 5 else if t == 4 then 7 else 8
  }

  /** Two to the number of zero bits that fill the last digit. */
  function Scale(c: Code, t: nat): (s: nat)
    ensures IsScale(s)
  {
    if c == Base64 then (if t == 1 then 16 else if t == 2 then 4 else 1)
    else if t == 1 then 4 else if t == 2 then 16 else if t == 3 then 2 else if t == 4 then 8 else 1
  }

  lemma PowersAgree(c: Code, t: nat)
    requires 1 <= t <= Whole(c)
    ensures Power(Base(c), Chars(c, t)) == Power(256, t) * Scale(c, t)
  {
    Powers256();
    if c == Base64 { Powers64(); } else { Powers32(); }
  }

  lemma Powers256()
    ensures Power(256, 1) == 0x100 && Power(256, 2) == 0x1_0000 && Power(256, 3) == 0x100_0000
    ensures Power(256, 4) == 0x1_0000_0000 && Power(256, 5) == 0x100_0000_0000
  {
    assert Power(256, 0) == 1;
    assert Power(256, 1) == 0x100;
    assert Power(256, 2) == 0x1_0000;
    assert Power(256, 3) == 0x100_0000;
    assert Power(256, 4) == 0x1_0000_0000;
  }

  lemma Powers64()
    ensures Power(64, 2) == 0x1000 && Power(64, 3) == 0x4_0000 && Power(64, 4) == 0x100_0000
  {
    assert Power(64, 0) == 1;
    assert Power(64, 1) == 64;
    assert Power(64, 2) == 0x1000;
    assert Power(64, 3) == 0x4_0000;
  }

  lemma Powers32()
    ensures Power(32, 2) == 0x400 && Power(32, 4) == 0x10_0000 && Power(32, 5) == 0x200_0000
    ensures Power(32, 7) == 0x8_0000_0000 && Power(32, 8) == 0x100_0000_0000
  {
    assert Power(32, 0) == 1;
    assert Power(32, 1) == 32;
    assert Power(32, 2) == 0x400;
    assert Power(32, 3) == 0x8000;
    assert Power(32, 4) == 0x10_0000;
    assert Power(32, 5) == 0x200_0000;
    assert Power(32, 6) == 0x4000_0000;
    assert Power(32, 7) == 0x8_0000_0000;
  }

  function EncodeGroup(c: Code, x: seq<byte>): (d: seq<nat>)
    requires 1 <= |x| <= Whole(c)
    ensures |d| == Chars(c, |x|) && forall i :: 0 <= i < |d| ==> d[i] < Base(c)
  {
    Digits(Number(x, 256) * Scale(c, |x|), Base(c), Chars(c, |x|))
  }

  /** The `t` bytes of a group, unless a fill bit is set. */
  function DecodeGroup(c: Code, d: seq<nat>, t: nat): Option<seq<byte>> {
    var v := Number(d, Base(c));
    if v % Scale(c, t) != 0 then None else Some(AsBytes(Digits(v / Scale(c, t), 256, t)))
  }

  function AsBytes(s: seq<nat>): (r: seq<byte>)
    requires forall i :: 0 <= i < |s| ==> s[i] < 256
    ensures r == s
  {
    seq(|s|, i requires 0 <= i < |s| => s[i])
  }

  predicate IsScale(k: nat) {
    k == 1 || k == 2 || k == 4 || k == 8 || k == 16
  }

  lemma Scaled(v: nat, k: nat, p: nat)
    requires IsScale(k) && v < p
    ensures v * k < p * k && v * k % k == 0 && v * k / k == v
  {
    if k == 1 {
      assert v * k == v;
    } else if k == 2 {
      assert v * k == 2 * v;
    } else if k == 4 {
      assert v * k == 4 * v;
    } else if k == 8 {
      assert v * k == 8 * v;
    } else {
      assert v * k == 16 * v;
    }
  }

  /** A group decodes to the bytes it was made from. */
  lemma GroupForth(c: Code, x: seq<byte>)
    requires 1 <= |x| <= Whole(c)
    ensures DecodeGroup(c, EncodeGroup(c, x), |x|) == Some(x)
  {
    hide Number, Digits, Power;
    var v, k := Number(x, 256), Scale(c, |x|);
    DigitsNumber(x, 256);
    PowersAgree(c, |x|);
    Scaled(v, k, Power(256, |x|));
    NumberDigits(v * k, Base(c), Chars(c, |x|));
  }

  /** An accepted group is the one made from the bytes it decodes to. */
  lemma GroupBack(c: Code, d: seq<nat>, t: nat)
    requires 1 <= t <= Whole(c) && |d| == Chars(c, t) && forall i :: 0 <= i < |d| ==> d[i] < Base(c)
    ensures DecodeGroup(c, d, t).Some? ==>
              |DecodeGroup(c, d, t).value| == t && EncodeGroup(c, DecodeGroup(c, d, t).value) == d
  {
    hide Number, Digits, Power;
    var v, k := Number(d, Base(c)), Scale(c, t);
    if v % k == 0 {
      DigitsNumber(d, Base(c));
      PowersAgree(c, t);
      Unscaled(v, k, Power(256, t));
      NumberDigits(v / k, 256, t);
    }
  }

  lemma Unscaled(v: nat, k: nat, p: nat)
    requires IsScale(k) && v % k == 0 && v < p * k
    ensures v / k < p && v / k * k == v
  {
    if k == 1 {
    } else if k == 2 {
    } else if k == 4 {
    } else if k == 8 {
    } else {
    }
  }
}
