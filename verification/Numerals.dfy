/**
  Unsigned numerals in base 10 and base 16 as the HTTP codec prints and parses
  them: printing is `std::to_string` / `std::to_chars`, parsing is the checked
  accumulation loop that refuses values above the largest `usize`.
 */
module Numerals {
  import opened Text

  const USIZE_MAX: nat := 0xFFFF_FFFF_FFFF_FFFF

  type usize = n: nat | n <= USIZE_MAX

  predicate IsBase(b: nat) {
    b == 10 || b == 16
  }

  /** The value of one digit, or -1: upper and lower case letters count in base 16. */
  function DigitOf(c: char, base: nat): (d: int)
    requires IsBase(base)
    ensures -1 <= d < base
  {
    if '0' <= c <= '9' then c as int - '0' as int
    else if base == 16 && 'a' <= c <= 'f' then c as int - 'a' as int + 10
    else if base == 16 && 'A' <= c <= 'F' then c as int - 'A' as int + 10
    else -1
  }

  function DigitChar(d: nat): char
    requires d < 16
  {
    if d < 10 then '0' + d as char else 'a' + (d - 10) as char
  }

  predicate AllDigits(s: string, base: nat)
    requires IsBase(base)
  {
    forall i :: 0 <= i < |s| ==> DigitOf(s[i], base) >= 0
  }

  function Value(s: string, base: nat): nat
    requires IsBase(base) && AllDigits(s, base)
  {
    if s == [] then 0
    else
      var front := s[..|s| - 1];
      assert AllDigits(front, base);
      Value(front, base) * base + DigitOf(s[|s| - 1], base)
  }

  /** A nonempty digit string whose value fits a `usize`. */
  predicate IsNumeral(s: string, base: nat)
    requires IsBase(base)
  {
    s != [] && AllDigits(s, base) && Value(s, base) <= USIZE_MAX
  }

  function Print(n: nat, base: nat): (s: string)
    requires IsBase(base)
    ensures s != []
  {
    if n < base then [DigitChar(n)]
    else Print(n / base, base) + [DigitChar(n % base)]
  }

  lemma {:induction false} PrintThenValue(n: nat, base: nat)
    requires IsBase(base)
    ensures AllDigits(Print(n, base), base)
    ensures Value(Print(n, base), base) == n
  {
    var s := Print(n, base);
    if n < base {
      assert s[..|s| - 1] == [];
    } else {
      PrintThenValue(n / base, base);
      assert s[..|s| - 1] == Print(n / base, base);
    }
  }

  /** Digits count from zero up, letters behind the figures. */
  lemma DigitsAre(c: char, base: nat, d: nat)
    requires IsBase(base) && d < base
    ensures DigitOf(c, base) == d <==> c == "0123456789abcdef"[d] || c == "0123456789ABCDEF"[d]
    ensures DigitChar(d) == "0123456789abcdef"[d]
  {
  }

  function Power(base: nat, n: nat): nat {
    if n == 0 then 1 else base * Power(base, n - 1)
  }

  /** Places count from the right: what stands before `t` weighs the base to the power of its length. */
  lemma {:induction false} ValueOfParts(s: string, t: string, base: nat)
    requires IsBase(base) && AllDigits(s, base) && AllDigits(t, base)
    ensures AllDigits(s + t, base) && Value(s + t, base) == Value(s, base) * Power(base, |t|) + Value(t, base)
    decreases |t|
  {
    hide DigitOf;
    if t == [] {
      assert s + t == s;
    } else {
      var front := t[..|t| - 1];
      ValueOfParts(s, front, base);
      assert (s + t)[..|s + t| - 1] == s + front;
      Distributes(Value(s, base), Power(base, |front|), Value(front, base), base);
    }
  }

  lemma Distributes(x: nat, p: nat, y: nat, base: nat)
    ensures (x * p + y) * base == x * (base * p) + y * base
  {
  }

  /** The numerals the printer produces: no leading zero, lower-case letters. */
  predicate IsCanonical(s: string, base: nat)
    requires IsBase(base)
  {
    s != [] && AllDigits(s, base)
    && (|s| > 1 ==> s[0] != '0')
    && forall i :: 0 <= i < |s| ==> !('A' <= s[i] <= 'F')
  }

  lemma {:induction false} ValuePositive(s: string, base: nat)
    requires IsBase(base) && s != [] && AllDigits(s, base) && s[0] != '0'
    ensures Value(s, base) > 0
  {
    if |s| > 1 {
      var front := s[..|s| - 1];
      assert front[0] == s[0];
      ValuePositive(front, base);
    } else {
      assert s[..0] == [];
    }
  }

  lemma {:induction false} ValueThenPrint(s: string, base: nat)
    requires IsBase(base) && IsCanonical(s, base)
    ensures Print(Value(s, base), base) == s
  {
    var front := s[..|s| - 1];
    var last := s[|s| - 1];
    var d := DigitOf(last, base);
    assert DigitChar(d) == last;
    hide DigitOf, DigitChar;
    assert s == front + [last];
    if front == [] {
      assert Value(front, base) == 0;
    } else {
      assert front[0] == s[0];
      ValuePositive(front, base);
      ValueThenPrint(front, base);
      var v := Value(front, base);
      SplitDigit(v, d, base);
    }
  }

  lemma SplitDigit(v: nat, d: nat, base: nat)
    requires IsBase(base) && d < base
    ensures (v * base + d) / base == v && (v * base + d) % base == d
  {
    if base == 10 {
    } else {
    }
  }

  /** The overflow-checked accumulation loop; `None` stands for its InvalidMessage exits. */
  method ParseNumeral(s: string, base: nat) returns (r: Option<usize>)
    requires IsBase(base) && s != []
    ensures r == if IsNumeral(s, base) then Some(Value(s, base)) else None
  {
    var n: usize := 0;
    for i := 0 to |s|
      invariant AllDigits(s[..i], base)
      invariant Value(s[..i], base) == n
    {
      var d := DigitOf(s[i], base);
      if d < 0 {
        return None;
      }
      assert s[..i + 1][..i] == s[..i];
      if n > (USIZE_MAX - d) / base {
        ValueMonotone(s, i + 1, base);
        return None;
      }
      n := n * base + d;
    }
    assert s[..|s|] == s;
    r := Some(n);
  }

  lemma {:induction false} ValueMonotone(s: string, i: nat, base: nat)
    requires IsBase(base) && i <= |s|
    ensures AllDigits(s, base) ==> AllDigits(s[..i], base) && Value(s[..i], base) <= Value(s, base)
    decreases |s| - i
  {
    if i == |s| {
      assert s[..i] == s;
    } else if AllDigits(s, base) {
      ValueMonotone(s, i + 1, base);
      assert s[..i + 1][..i] == s[..i];
    }
  }
}
