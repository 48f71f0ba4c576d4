/** The DES cipher proper: permutations, rounds, key schedule, and what undoes them. */
module Des {
  import opened DesTables

  type Bits = seq<bool>

  // ----------------------------------------------------------------------- permutations

  function Permute(s: Bits, table: seq<nat>): (r: Bits)
    requires forall i :: 0 <= i < |table| ==> 1 <= table[i] <= |s|
    ensures |r| == |table|
  {
    seq(|table|, i requires 0 <= i < |table| => s[table[i] - 1])
  }

  /** Bit by bit, each shifted in at the end. */
  method PermuteBits(value: Bits, table: seq<nat>) returns (out: Bits)
    requires forall i :: 0 <= i < |table| ==> 1 <= table[i] <= |value|
    ensures out == Permute(value, table)
  {
    out := [];
    var i := 0;
    while i < |table|
      invariant 0 <= i <= |table| && |out| == i
      invariant forall k :: 0 <= k < i ==> out[k] == value[table[k] - 1]
    {
      out := out + [value[table[i] - 1]];
      i := i + 1;
    }
  }

  function Table(row: nat -> seq<nat>, size: nat, width: nat): (t: seq<nat>)
    requires forall r :: |row(r)| == size && InRange(row(r), width)
    ensures |t| == 8 * size && forall i :: 0 <= i < |t| ==> 1 <= t[i] <= width
  {
    FlatInRange(row, 8, size, width);
    Flat(row, 8)
  }

  function Ip(): (t: seq<nat>)
    ensures |t| == 64 && forall i :: 0 <= i < |t| ==> 1 <= t[i] <= 64
  {
    Table(IpRow, 8, 64)
  }

  function Fp(): (t: seq<nat>)
    ensures |t| == 64 && forall i :: 0 <= i < |t| ==> 1 <= t[i] <= 64
  {
    Table(FpRow, 8, 64)
  }

  function E(): (t: seq<nat>)
    ensures |t| == 48 && forall i :: 0 <= i < |t| ==> 1 <= t[i] <= 32
  {
    Table(ERow, 6, 32)
  }

  function P(): (t: seq<nat>)
    ensures |t| == 32 && forall i :: 0 <= i < |t| ==> 1 <= t[i] <= 32
  {
    Table(PRow, 4, 32)
  }

  function Pc1(): (t: seq<nat>)
    ensures |t| == 56 && forall i :: 0 <= i < |t| ==> 1 <= t[i] <= 64
  {
    Table(Pc1Row, 7, 64)
  }

  function Pc2(): (t: seq<nat>)
    ensures |t| == 48 && forall i :: 0 <= i < |t| ==> 1 <= t[i] <= 56
  {
    Table(Pc2Row, 6, 56)
  }

  lemma IpAt(r: nat, c: nat)
    requires r < 8 && c < 8
    ensures Ip()[8 * r + c] - 1 == 8 * (7 - c) + if r < 4 then 2 * r + 1 else 2 * r - 8
  {
    hide IpRow;
    FlatAt(IpRow, 8, r, c);
    IpFormula(r, c);
  }

  lemma FpAt(r: nat, c: nat)
    requires r < 8 && c < 8
    ensures Fp()[8 * r + c] - 1 == 8 * (if c % 2 == 0 then 4 + c / 2 else c / 2) + 7 - r
  {
    hide FpRow;
    FlatAt(FpRow, 8, r, c);
    FpFormula(r, c);
  }

  /** The two outer tables undo each other. */
  lemma TablesInverse(r: nat, c: nat)
    requires r < 8 && c < 8
    ensures Ip()[Fp()[8 * r + c] - 1] == 8 * r + c + 1
    ensures Fp()[Ip()[8 * r + c] - 1] == 8 * r + c + 1
  {
    hide Ip, Fp;
    FpAt(r, c);
    IpAt(if c % 2 == 0 then 4 + c / 2 else c / 2, 7 - r);
    IpAt(r, c);
    FpAt(7 - c, if r < 4 then 2 * r + 1 else 2 * r - 8);
  }

  lemma OuterInverse(s: Bits)
    requires |s| == 64
    ensures Permute(Permute(s, Ip()), Fp()) == s && Permute(Permute(s, Fp()), Ip()) == s
  {
    hide Ip, Fp;
    forall i | 0 <= i < 64
      ensures Permute(Permute(s, Ip()), Fp())[i] == s[i] && Permute(Permute(s, Fp()), Ip())[i] == s[i]
    {
      TablesInverse(i / 8, i % 8);
      assert 8 * (i / 8) + i % 8 == i;
    }
  }

  // --------------------------------------------------------------------- round function

  function Xor(a: Bits, b: Bits): (r: Bits)
    requires |a| == |b|
    ensures |r| == |a|
  {
    seq(|a|, i requires 0 <= i < |a| => a[i] != b[i])
  }

  lemma XorTwice(a: Bits, b: Bits)
    requires |a| == |b|
    ensures Xor(Xor(a, b), b) == a
  {
  }

  function Digit(b: bool): nat {
    if b then 1 else 0
  }

  /** The low four bits of a number. */
  function Nibble(v: nat): (r: Bits)
    ensures |r| == 4
  {
    [v / 8 % 2 == 1, v / 4 % 2 == 1, v / 2 % 2 == 1, v % 2 == 1]
  }

  /** The outer bits of six choose the row of a box, the inner ones the column. */
  function Substitute(box: nat, six: Bits): (r: Bits)
    requires |six| == 6
    ensures |r| == 4
  {
    var row := 2 * Digit(six[0]) + Digit(six[5]);
    var column := 8 * Digit(six[1]) + 4 * Digit(six[2]) + 2 * Digit(six[3]) + Digit(six[4]);
    Nibble(SBoxRow(box, row)[column])
  }

  /** The first `n` boxes applied to their six bits each. */
  function Substituted(mixed: Bits, n: nat): (r: Bits)
    requires |mixed| == 48 && n <= 8
    ensures |r| == 4 * n
  {
    if n == 0 then [] else Substituted(mixed, n - 1) + Substitute(n - 1, mixed[6 * n - 6..6 * n])
  }

  function F(half: Bits, subkey: Bits): (r: Bits)
    requires |half| == 32 && |subkey| == 48
    ensures |r| == 32
  {
    Permute(Substituted(Xor(Permute(half, E()), subkey), 8), P())
  }

  lemma SubstitutedNone(mixed: Bits)
    requires |mixed| == 48
    ensures Substituted(mixed, 0) == []
  {
  }

  lemma SubstitutedStep(mixed: Bits, n: nat)
    requires |mixed| == 48 && n < 8
    ensures Substituted(mixed, n + 1) == Substituted(mixed, n) + Substitute(n, mixed[6 * n..6 * n + 6])
  {
    hide Substitute;
  }

  method Feistel(half: Bits, subkey: Bits) returns (out: Bits)
    requires |half| == 32 && |subkey| == 48
    ensures out == F(half, subkey)
  {
    hide Permute, Substitute, Substituted, Xor, E, P;
    var expanded := PermuteBits(half, E());
    var mixed := Xor(expanded, subkey);
    var chosen: Bits := [];
    var box := 0;
    SubstitutedNone(mixed);
    while box < 8
      invariant 0 <= box <= 8 && chosen == Substituted(mixed, box)
    {
      SubstitutedStep(mixed, box);
      chosen := chosen + Substitute(box, mixed[6 * box..6 * box + 6]);
      box := box + 1;
    }
    out := PermuteBits(chosen, P());
  }

  // ----------------------------------------------------------------------------- rounds

  ghost predicate Keys(keys: seq<Bits>) {
    forall i :: 0 <= i < |keys| ==> |keys[i]| == 48
  }

  /** Both halves after one round for each key. */
  function Rounds(keys: seq<Bits>, l: Bits, r: Bits): (s: (Bits, Bits))
    requires |l| == 32 && |r| == 32 && forall i :: 0 <= i < |keys| ==> |keys[i]| == 48
    ensures |s.0| == 32 && |s.1| == 32
  {
    if keys == [] then (l, r) else Rounds(keys[1..], r, Xor(l, F(r, keys[0])))
  }

  function Reversed(keys: seq<Bits>): (r: seq<Bits>)
    ensures |r| == |keys| && forall i :: 0 <= i < |keys| ==> r[i] == keys[|keys| - 1 - i]
  {
    if keys == [] then [] else Reversed(keys[1..]) + [keys[0]]
  }

  lemma {:induction false} RoundsAppend(first: seq<Bits>, then_: seq<Bits>, l: Bits, r: Bits)
    requires |l| == 32 && |r| == 32 && Keys(first) && Keys(then_)
    ensures Keys(first + then_)
    ensures var m := Rounds(first, l, r); Rounds(first + then_, l, r) == Rounds(then_, m.0, m.1)
    decreases |first|
  {
    hide F, Xor;
    if first == [] {
      assert first + then_ == then_;
    } else {
      assert (first + then_)[1..] == first[1..] + then_;
      RoundsAppend(first[1..], then_, r, Xor(l, F(r, first[0])));
    }
  }

  /** Swapping the halves and running the keys backwards undoes the rounds. */
  lemma {:induction false} RoundsInverse(keys: seq<Bits>, l: Bits, r: Bits)
    requires |l| == 32 && |r| == 32 && Keys(keys)
    ensures Keys(Reversed(keys))
    ensures var s := Rounds(keys, l, r); Rounds(Reversed(keys), s.1, s.0) == (r, l)
    decreases |keys|
  {
    hide F, Xor;
    if keys != [] {
      var s := Rounds(keys, l, r);
      var mixed := Xor(l, F(r, keys[0]));
      RoundsInverse(keys[1..], r, mixed);
      RoundsAppend(Reversed(keys[1..]), [keys[0]], s.1, s.0);
      OneRound(keys[0], mixed, r);
      XorTwice(l, F(r, keys[0]));
    }
  }

  lemma OneRound(key: Bits, l: Bits, r: Bits)
    requires |l| == 32 && |r| == 32 && |key| == 48
    ensures Rounds([key], l, r) == (r, Xor(l, F(r, key)))
  {
    hide F, Xor;
    assert [key][1..] == [];
  }

  // -------------------------------------------------------------------------- the block

  function Crypt(block: Bits, keys: seq<Bits>): (r: Bits)
    requires |block| == 64 && forall i :: 0 <= i < |keys| ==> |keys[i]| == 48
    ensures |r| == 64
  {
    var permuted := Permute(block, Ip());
    var s := Rounds(keys, permuted[..32], permuted[32..]);
    Permute(s.1 + s.0, Fp())
  }

  method CryptBlock(block: Bits, keys: array<Bits>) returns (out: Bits)
    requires |block| == 64 && forall i :: 0 <= i < keys.Length ==> |keys[i]| == 48
    ensures out == Crypt(block, keys[..])
  {
    hide Permute, F, Xor;
    var permuted := PermuteBits(block, Ip());
    var left, right := permuted[..32], permuted[32..];
    var round := 0;
    while round < keys.Length
      invariant 0 <= round <= keys.Length && |left| == 32 && |right| == 32
      invariant Rounds(keys[round..], left, right) == Rounds(keys[..], permuted[..32], permuted[32..])
    {
      assert keys[round..][1..] == keys[round + 1..];
      var mixed := Feistel(right, keys[round]);
      left, right := right, Xor(left, mixed);
      round := round + 1;
    }
    out := PermuteBits(right + left, Fp());
  }

  /** Running the subkeys backwards undoes the cipher, for every block and any subkeys. */
  lemma CryptInverse(block: Bits, keys: seq<Bits>)
    requires |block| == 64 && Keys(keys)
    ensures Crypt(Crypt(block, keys), Reversed(keys)) == block
  {
    hide Permute, Rounds, Ip, Fp;
    var permuted := Permute(block, Ip());
    var s := Rounds(keys, permuted[..32], permuted[32..]);
    RoundsInverse(keys, permuted[..32], permuted[32..]);
    OuterInverse(s.1 + s.0);
    OuterInverse(block);
    assert (s.1 + s.0)[..32] == s.1 && (s.1 + s.0)[32..] == s.0;
    assert permuted[..32] + permuted[32..] == permuted;
  }

  // ------------------------------------------------------------------------ key schedule

  function Rotate(half: Bits, n: nat): (r: Bits)
    requires n <= |half|
    ensures |r| == |half|
  {
    half[n..] + half[..n]
  }

  /** Both key halves after `n` rounds of rotation. */
  function Halves(key: Bits, n: nat): (h: (Bits, Bits))
    requires |key| == 64
    ensures |h.0| == 28 && |h.1| == 28
  {
    if n == 0 then
      var cd := Permute(key, Pc1());
      (cd[..28], cd[28..])
    else
      var h := Halves(key, n - 1);
      (Rotate(h.0, Shift(n - 1)), Rotate(h.1, Shift(n - 1)))
  }

  function Subkey(key: Bits, round: nat): (r: Bits)
    requires |key| == 64
    ensures |r| == 48
  {
    var h := Halves(key, round + 1);
    Permute(h.0 + h.1, Pc2())
  }

  /** The first `n` subkeys, in order of encryption. */
  function Subkeys(key: Bits, n: nat): (r: seq<Bits>)
    requires |key| == 64
    ensures |r| == n && forall i :: 0 <= i < n ==> r[i] == Subkey(key, i) && |r[i]| == 48
  {
    if n == 0 then [] else Subkeys(key, n - 1) + [Subkey(key, n - 1)]
  }

  function Schedule(key: Bits, reverse: bool): (r: seq<Bits>)
    requires |key| == 64
    ensures |r| == 16 && forall i :: 0 <= i < 16 ==> |r[i]| == 48
  {
    if reverse then Reversed(Subkeys(key, 16)) else Subkeys(key, 16)
  }

  method DeriveSubkeys(key: Bits, reverse: bool, subkeys: array<Bits>)
    requires |key| == 64 && subkeys.Length == 16
    modifies subkeys
    ensures subkeys[..] == Schedule(key, reverse)
  {
    hide Permute, Rotate, Shift, Subkeys, Reversed, Pc1, Pc2;
    var cd := PermuteBits(key, Pc1());
    var c, d := cd[..28], cd[28..];
    var round := 0;
    while round < 16
      invariant 0 <= round <= 16 && Halves(key, round) == (c, d)
      invariant forall k :: 0 <= k < round ==> subkeys[if reverse then 15 - k else k] == Subkey(key, k)
    {
      var shift := Shift(round);
      c := Rotate(c, shift);
      d := Rotate(d, shift);
      var selected := PermuteBits(c + d, Pc2());
      subkeys[if reverse then 15 - round else round] := selected;
      round := round + 1;
    }
    forall i | 0 <= i < 16
      ensures subkeys[i] == Schedule(key, reverse)[i]
    {
      assert subkeys[if reverse then 15 - (15 - i) else i] == Subkey(key, if reverse then 15 - i else i);
    }
  }

  lemma {:induction false} ReversedTwice(keys: seq<Bits>)
    ensures Reversed(Reversed(keys)) == keys
  {
    var r := Reversed(keys);
    forall i | 0 <= i < |keys|
      ensures Reversed(r)[i] == keys[i]
    {
      assert r[|keys| - 1 - i] == keys[i];
    }
  }

  /** Each direction undoes the other, for every key and block. */
  lemma BlockInverse(key: Bits, block: Bits, reverse: bool)
    requires |key| == 64 && |block| == 64
    ensures Crypt(Crypt(block, Schedule(key, reverse)), Schedule(key, !reverse)) == block
  {
    hide Crypt, Subkeys;
    CryptInverse(block, Schedule(key, reverse));
    ReversedTwice(Subkeys(key, 16));
  }

  // --------------------------------------------------------------------- complementation

  function Not(s: Bits): (r: Bits)
    ensures |r| == |s|
  {
    seq(|s|, i requires 0 <= i < |s| => !s[i])
  }

  lemma PermuteNot(s: Bits, table: seq<nat>)
    requires forall i :: 0 <= i < |table| ==> 1 <= table[i] <= |s|
    ensures Permute(Not(s), table) == Not(Permute(s, table))
  {
  }

  lemma XorNot(a: Bits, b: Bits)
    requires |a| == |b|
    ensures Xor(Not(a), Not(b)) == Xor(a, b) && Xor(Not(a), b) == Not(Xor(a, b))
  {
  }

  lemma NotAppend(a: Bits, b: Bits)
    ensures Not(a + b) == Not(a) + Not(b)
  {
  }

  lemma NotSlices(s: Bits, n: nat)
    requires n <= |s|
    ensures Not(s)[..n] == Not(s[..n]) && Not(s)[n..] == Not(s[n..])
  {
  }

  lemma RoundNot(half: Bits, key: Bits)
    requires |half| == 32 && |key| == 48
    ensures F(Not(half), Not(key)) == F(half, key)
  {
    hide Permute, Xor, Not, Substituted;
    PermuteNot(half, E());
    XorNot(Permute(half, E()), key);
  }

  ghost predicate Complements(other: seq<Bits>, keys: seq<Bits>) {
    |other| == |keys| && forall i :: 0 <= i < |keys| ==> other[i] == Not(keys[i])
  }

  lemma {:induction false} RoundsNot(keys: seq<Bits>, other: seq<Bits>, l: Bits, r: Bits)
    requires |l| == 32 && |r| == 32 && Keys(keys) && Keys(other) && Complements(other, keys)
    ensures var s := Rounds(keys, l, r); Rounds(other, Not(l), Not(r)) == (Not(s.0), Not(s.1))
    decreases |keys|
  {
    hide F, Xor, Not;
    if keys != [] {
      RoundNot(r, keys[0]);
      XorNot(l, F(r, keys[0]));
      RoundsNot(keys[1..], other[1..], r, Xor(l, F(r, keys[0])));
    }
  }

  lemma {:induction false} HalvesNot(key: Bits, n: nat)
    requires |key| == 64
    ensures var h := Halves(key, n); Halves(Not(key), n) == (Not(h.0), Not(h.1))
  {
    hide Permute, Not, Shift;
    if n == 0 {
      PermuteNot(key, Pc1());
      NotSlices(Permute(key, Pc1()), 28);
    } else {
      HalvesNot(key, n - 1);
      var h, k := Halves(key, n - 1), Shift(n - 1);
      NotSlices(h.0, k);
      NotSlices(h.1, k);
      NotAppend(h.0[k..], h.0[..k]);
      NotAppend(h.1[k..], h.1[..k]);
    }
  }

  lemma SubkeyNot(key: Bits, round: nat)
    requires |key| == 64
    ensures Subkey(Not(key), round) == Not(Subkey(key, round))
  {
    hide Permute, Not, Halves;
    HalvesNot(key, round + 1);
    var h := Halves(key, round + 1);
    NotAppend(h.0, h.1);
    PermuteNot(h.0 + h.1, Pc2());
  }

  /** Complementing key and block complements the result. */
  lemma Complementation(key: Bits, block: Bits, reverse: bool)
    requires |key| == 64 && |block| == 64
    ensures Crypt(Not(block), Schedule(Not(key), reverse)) == Not(Crypt(block, Schedule(key, reverse)))
  {
    hide Permute, Not, Rounds, Subkey;
    var keys, other := Schedule(key, reverse), Schedule(Not(key), reverse);
    forall i | 0 <= i < 16
      ensures other[i] == Not(keys[i])
    {
      SubkeyNot(key, if reverse then 15 - i else i);
    }
    var permuted := Permute(block, Ip());
    PermuteNot(block, Ip());
    NotSlices(permuted, 32);
    RoundsNot(keys, other, permuted[..32], permuted[32..]);
    var s := Rounds(keys, permuted[..32], permuted[32..]);
    NotAppend(s.1, s.0);
    PermuteNot(s.1 + s.0, Fp());
  }
}
