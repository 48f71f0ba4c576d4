/**
  Variable-length integers of the byte buffers (seven bits to a byte, least significant
  first, canonical) and the zigzag map. A `u32` or `u64` is a natural number below its bound.
 */
module Varint {
  import opened Octets

  /** The two widths: how many bytes at most, and the largest last byte when all are used. */
  datatype Width = W32 | W64

  function MaxBytes(w: Width): (n: nat)
    ensures n > 0
  {
    if w == W32 then 5 else 10
  }

  function Top(w: Width): nat {
    if w == W32 then 0x0F else 0x01
  }

  const TWO32: nat := 0x1_0000_0000
  const TWO64: nat := 0x1_0000_0000_0000_0000

  function Bound(w: Width): nat {
    if w == W32 then TWO32 else TWO64
  }

  function Power128(k: nat): (p: nat)
    ensures p > 0
  {
    if k == 0 then 1 else 128 * Power128(k - 1)
  }

  lemma BoundIs(w: Width)
    ensures Bound(w) == (Top(w) + 1) * Power128(MaxBytes(w) - 1)
  {
    assert Power128(4) == 0x1000_0000;
    assert Power128(9) == 0x8000_0000_0000_0000;
  }

  // ---------------------------------------------------------------------------- writing

  function Encode(v: nat): (r: seq<byte>)
    ensures r != []
  {
    if v < 128 then [v] else [v % 128 + 128] + Encode(v / 128)
  }

  /** `put_var_u32` and `put_var_u64`: never more bytes than were reserved. */
  method PutVar(w: Width, data: seq<byte>, v: nat) returns (out: seq<byte>)
    requires v < Bound(w)
    ensures out == data + Encode(v) && |Encode(v)| <= MaxBytes(w)
  {
    BoundIs(w);
    EncodeLength(v, MaxBytes(w), Top(w));
    out := data;
    var rest := v;
    while rest >= 128
      invariant out + Encode(rest) == data + Encode(v)
      decreases rest
    {
      out := out + [rest % 128 + 128];
      rest := rest / 128;
    }
    out := out + [rest];
  }

  lemma {:induction false} EncodeLength(v: nat, left: nat, top: nat)
    requires left > 0 && v < (top + 1) * Power128(left - 1) && top < 128
    ensures |Encode(v)| <= left
  {
    if v >= 128 {
      assert left > 1;
      BoundStep(left, top);
      EncodeLength(v / 128, left - 1, top);
    }
  }

  lemma BoundStep(left: nat, top: nat)
    requires left > 1
    ensures (top + 1) * Power128(left - 1) == 128 * ((top + 1) * Power128(left - 2))
  {
  }

  /** The number whose seven-bit digits are the bytes without their top bits, the least significant first. */
  function Weighted(s: seq<byte>): nat {
    if s == [] then 0 else s[0] % 128 + 128 * Weighted(s[1..])
  }

  /** The top bit is set on every byte but the last, and no last byte is superfluous. */
  predicate IsShortest(s: seq<byte>) {
    && s != [] && (forall i :: 0 <= i < |s| - 1 ==> s[i] >= 128)
    && s[|s| - 1] < 128 && (|s| > 1 ==> s[|s| - 1] != 0)
  }

  lemma {:induction false} EncodeIsShortest(v: nat)
    ensures IsShortest(Encode(v)) && Weighted(Encode(v)) == v && (v > 0 ==> Encode(v)[|Encode(v)| - 1] != 0)
  {
    var s := Encode(v);
    if v < 128 {
      assert s[1..] == [];
    } else {
      EncodeIsShortest(v / 128);
      var rest := Encode(v / 128);
      assert s[1..] == rest && s[|s| - 1] == rest[|rest| - 1];
    }
  }

  lemma {:induction false} ShortestIsEncode(s: seq<byte>)
    requires IsShortest(s)
    ensures s == Encode(Weighted(s))
    decreases |s|
  {
    if |s| == 1 {
      assert s[1..] == [];
    } else {
      ShortestTail(s);
      ShortestIsEncode(s[1..]);
      var v := Weighted(s);
      assert v % 128 + 128 == s[0] && v / 128 == Weighted(s[1..]);
      assert s == [s[0]] + s[1..];
    }
  }

  /** What is put for a number is the one shortest row of seven-bit digits that makes it up. */
  lemma EncodeIff(s: seq<byte>, v: nat)
    ensures s == Encode(v) <==> IsShortest(s) && Weighted(s) == v
  {
    hide Encode, IsShortest, Weighted;
    EncodeIsShortest(v);
    if IsShortest(s) {
      ShortestIsEncode(s);
    }
  }

  lemma {:induction false} ShortestTail(s: seq<byte>)
    requires IsShortest(s) && |s| > 1
    ensures IsShortest(s[1..]) && Weighted(s[1..]) > 0
    decreases |s|
  {
    var rest := s[1..];
    assert rest[|rest| - 1] == s[|s| - 1];
    if |rest| > 1 {
      ShortestTail(rest);
    } else {
      assert rest[1..] == [];
    }
  }

  // ---------------------------------------------------------------------------- reading

  datatype Result = Ok(value: nat, size: nat) | Underflow | Malformed

  /** Reads with at most `left` bytes; a zero byte is allowed only as the very first. */
  function Decode(s: seq<byte>, left: nat, first: bool, top: nat): Result {
    if left == 0 then Malformed
    else if s == [] then Underflow
    else if !first && s[0] == 0 then Malformed
    else if left == 1 && s[0] > top then Malformed
    else if s[0] < 128 then Ok(s[0], 1)
    else
      var r := Decode(s[1..], left - 1, false, top);
      if r.Ok? then Ok(s[0] - 128 + 128 * r.value, r.size + 1) else r
  }

  lemma {:induction false} DecodeSound(s: seq<byte>, left: nat, first: bool, top: nat)
    requires left > 0 && top < 128
    ensures var r := Decode(s, left, first, top);
            r.Ok? ==> && r.size <= |s| && s[..r.size] == Encode(r.value)
                      && r.value < (top + 1) * Power128(left - 1) && (first || r.value > 0)
    decreases left
  {
    var r := Decode(s, left, first, top);
    if r.Ok? && s[0] >= 128 {
      DecodeSound(s[1..], left - 1, false, top);
      var rest := Decode(s[1..], left - 1, false, top);
      BoundStep(left, top);
      assert r.size == rest.size + 1 && s == [s[0]] + s[1..];
      assert s[..r.size] == [s[0]] + s[1..][..rest.size];
      assert r.value % 128 == s[0] - 128 && r.value / 128 == rest.value;
    } else if r.Ok? && left > 1 {
      PowerAtLeast(left - 1);
      assert (top + 1) * Power128(left - 1) >= Power128(left - 1);
    }
  }

  lemma PowerAtLeast(k: nat)
    requires k > 0
    ensures Power128(k) >= 128
  {
  }

  lemma {:induction false} DecodeComplete(v: nat, rest: seq<byte>, left: nat, first: bool, top: nat)
    requires left > 0 && top < 128 && v < (top + 1) * Power128(left - 1) && (first || v > 0)
    ensures Decode(Encode(v) + rest, left, first, top) == Ok(v, |Encode(v)|)
    decreases left
  {
    var s := Encode(v) + rest;
    if v >= 128 {
      assert left > 1;
      BoundStep(left, top);
      assert s[1..] == Encode(v / 128) + rest;
      DecodeComplete(v / 128, rest, left - 1, false, top);
    } else if left == 1 {
      assert v <= top;
    }
  }

  /** The bytes run out exactly when they are the beginning of some encoding. */
  lemma {:induction false} UnderflowExtends(s: seq<byte>, left: nat, first: bool, top: nat) returns (v: nat)
    requires left > 0 && 1 <= top < 128 && Decode(s, left, first, top).Underflow?
    ensures v < (top + 1) * Power128(left - 1) && v > 0 && |s| < |Encode(v)| && s == Encode(v)[..|s|]
    decreases left
  {
    hide Power128;
    if s == [] {
      v := 1;
      TwoFit(left, top);
    } else {
      var rest := UnderflowExtends(s[1..], left - 1, false, top);
      v := s[0] - 128 + 128 * rest;
      assert v % 128 == s[0] - 128 && v / 128 == rest;
      BoundStep(left, top);
      assert s == [s[0]] + s[1..];
      assert Encode(v)[..|s|] == [s[0]] + Encode(rest)[..|s| - 1];
    }
  }

  lemma TwoFit(left: nat, top: nat)
    requires left > 0 && top >= 1
    ensures 2 <= (top + 1) * Power128(left - 1)
  {
    assert (top + 1) * Power128(left - 1) >= 2 * Power128(left - 1);
  }

  lemma {:induction false} PrefixUnderflows(s: seq<byte>, v: nat, left: nat, first: bool, top: nat)
    requires left > 0 && top < 128 && v < (top + 1) * Power128(left - 1) && (first || v > 0)
    requires |s| < |Encode(v)| && s == Encode(v)[..|s|]
    ensures Decode(s, left, first, top).Underflow?
    decreases left
  {
    if s != [] {
      assert v >= 128 && s[0] == v % 128 + 128;
      assert left > 1;
      BoundStep(left, top);
      assert s[1..] == Encode(v / 128)[..|s| - 1];
      PrefixUnderflows(s[1..], v / 128, left - 1, false, top);
    }
  }

  function Read(w: Width, s: seq<byte>): Result {
    Decode(s, MaxBytes(w), true, Top(w))
  }

  /** Reading succeeds with `v` after `n` bytes exactly when those bytes are what was put for `v`. */
  lemma ReadIff(w: Width, s: seq<byte>, v: nat, n: nat)
    ensures Read(w, s) == Ok(v, n) <==> v < Bound(w) && n <= |s| && s[..n] == Encode(v)
  {
    hide Decode, Encode;
    BoundIs(w);
    DecodeSound(s, MaxBytes(w), true, Top(w));
    if v < Bound(w) && n <= |s| && s[..n] == Encode(v) {
      assert s == Encode(v) + s[n..];
      DecodeComplete(v, s[n..], MaxBytes(w), true, Top(w));
    }
  }

  lemma UnderflowIff(w: Width, s: seq<byte>)
    ensures Read(w, s).Underflow? <==> exists v :: 0 <= v < Bound(w) && |s| < |Encode(v)| && s == Encode(v)[..|s|]
  {
    hide Decode, Encode;
    BoundIs(w);
    if Read(w, s).Underflow? {
      var v := UnderflowExtends(s, MaxBytes(w), true, Top(w));
      assert 0 <= v < Bound(w) && |s| < |Encode(v)| && s == Encode(v)[..|s|];
    }
    if v :| 0 <= v < Bound(w) && |s| < |Encode(v)| && s == Encode(v)[..|s|] {
      PrefixUnderflows(s, v, MaxBytes(w), true, Top(w));
    }
  }

  /** A readable buffer with a cursor. */
  class Bytes {
    const data: seq<byte>
    var pos: nat

    constructor (data: seq<byte>)
      ensures this.data == data && pos == 0
    {
      this.data := data;
      pos := 0;
    }

    /** The cursor moves over what was read, and stays on an error. */
    method GetVar(w: Width) returns (r: Result)
      requires pos <= |data|
      modifies this
      ensures pos <= |data| && r == Read(w, data[old(pos)..])
      ensures pos == if r.Ok? then old(pos) + r.size else old(pos)
    {
      hide Decode, Shifted;
      var result: nat, unit: nat := 0, 1;
      var i := 0;
      ghost var start := data[pos..];
      ReadStart(w, start);
      while i < MaxBytes(w)
        invariant 0 <= i <= MaxBytes(w) && i <= |start| && pos == old(pos)
        invariant Read(w, start) == Shifted(Decode(start[i..], MaxBytes(w) - i, i == 0, Top(w)), result, unit, i)
      {
        ReadStep(start, i, MaxBytes(w) - i, i == 0, Top(w), result, unit);
        if i >= |data| - pos {
          return Underflow;
        }
        var b := data[pos + i];
        assert start[i] == b;
        if i > 0 && b == 0 {
          return Malformed;
        }
        if i == MaxBytes(w) - 1 && b > Top(w) {
          return Malformed;
        }
        result := result + b % 128 * unit;
        if b < 128 {
          pos := pos + i + 1;
          return Ok(result, i + 1);
        }
        unit := 128 * unit;
        i := i + 1;
      }
      ReadStop(start[i..], i, Top(w), result, unit);
      r := Malformed;
    }
  }

  /** The value read from the rest, placed above what is already there. */
  function Shifted(r: Result, low: nat, unit: nat, size: nat): Result {
    if r.Ok? then Ok(low + unit * r.value, size + r.size) else r
  }

  lemma ReadStart(w: Width, s: seq<byte>)
    ensures Read(w, s) == Shifted(Decode(s[0..], MaxBytes(w), true, Top(w)), 0, 1, 0)
  {
    hide Decode;
    assert s[0..] == s;
  }

  lemma ReadStop(s: seq<byte>, i: nat, top: nat, low: nat, unit: nat)
    ensures Shifted(Decode(s, 0, i == 0, top), low, unit, i) == Malformed
  {
  }

  /** One byte of a number, `unit` being what its lowest bit is worth. */
  lemma ReadStep(s: seq<byte>, i: nat, left: nat, first: bool, top: nat, low: nat, unit: nat)
    requires i <= |s| && left > 0
    ensures var r := Shifted(Decode(s[i..], left, first, top), low, unit, i);
            if i == |s| then r == Underflow
            else if (!first && s[i] == 0) || (left == 1 && s[i] > top) then r == Malformed
            else
              && s[i] % 128 * unit >= 0
              && if s[i] < 128 then r == Ok(low + s[i] % 128 * unit, i + 1)
                 else r == Shifted(Decode(s[i + 1..], left - 1, false, top), low + s[i] % 128 * unit, 128 * unit, i + 1)
  {
    if i < |s| {
      var b := s[i];
      assert s[i..][0] == b && s[i..][1..] == s[i + 1..];
      assert b % 128 * unit >= 0;
      if b >= 128 {
        ShiftStep(Decode(s[i + 1..], left - 1, false, top), b, low, unit, i);
      }
    }
  }

  lemma ShiftStep(r: Result, b: byte, low: nat, unit: nat, i: nat)
    requires b >= 128
    ensures b % 128 * unit >= 0
    ensures Shifted(if r.Ok? then Ok(b - 128 + 128 * r.value, r.size + 1) else r, low, unit, i)
         == Shifted(r, low + b % 128 * unit, 128 * unit, i + 1)
  {
    assert b % 128 == b - 128;
    if r.Ok? {
      assert unit * (b - 128 + 128 * r.value) == unit * (b - 128) + 128 * unit * r.value;
    }
  }
}
