/**
  FIPS 197 said on single bytes: the recurrence of the key schedule and one round of
  the cipher as equations between bytes, with the round constants and counts written out.
 */
module AesStandard {
  import opened CryptoTypes
  import opened BlockModes
  import opened AesTables
  import opened AesField
  import opened AesKeys
  import opened Aes
  import opened AesBlock

  // ----------------------------------------------------------------- the key schedule

  /** The round constants, from the first on. */
  const ROUND_CONSTANTS: Bytes := [0x01, 0x02, 0x04, 0x08, 0x10, 0x20, 0x40, 0x80, 0x1B, 0x36]

  /** What byte `k` of word `i` must be (`Plus` is the exclusive or of two bytes) in a schedule for a key of `nk` words. */
  predicate Recurs(r: Bytes, nk: nat, i: nat, k: nat)
    requires 4 <= nk <= i && i / nk <= 10 && k < 4 && 4 * i + 4 <= |r|
  {
    var earlier, before := r[4 * (i - nk) + k], 4 * (i - 1);
    if i % nk == 0 then
      assert i / nk >= 1 by { AtLeastOne(i, nk); }
      var substituted := SBox(r[before + if k == 3 then 0 else k + 1]);
      r[4 * i + k] == Plus(earlier, Plus(substituted, if k == 0 then ROUND_CONSTANTS[i / nk - 1] else 0))
    else if nk == 8 && i % 8 == 4 then r[4 * i + k] == Plus(earlier, SBox(r[before + k]))
    else r[4 * i + k] == Plus(earlier, r[before + k])
  }

  lemma AtLeastOne(i: nat, nk: nat)
    requires 0 < nk <= i
    ensures i / nk >= 1
  {
  }

  /** The schedule of a key of `nk` words: the key, and the recurrence at every later byte. */
  predicate IsSchedule(key: Bytes, r: Bytes, nk: nat, nr: nat)
    requires (nk == 4 && nr == 10) || (nk == 6 && nr == 12) || (nk == 8 && nr == 14)
  {
    && |key| == 4 * nk && |r| == 16 * (nr + 1) && r[..4 * nk] == key
    && forall i, k :: nk <= i < 4 * (nr + 1) && 0 <= k < 4 ==> Recurs(r, nk, i, k)
  }

  lemma PowersAreConstants()
    ensures |ROUND_CONSTANTS| == 10 && forall j :: 0 <= j < 10 ==> Power(j) == ROUND_CONSTANTS[j]
  {
    var c := ROUND_CONSTANTS;
    assert XTime(0x01) == 0x02 && XTime(0x02) == 0x04 && XTime(0x04) == 0x08 && XTime(0x08) == 0x10 && XTime(0x10) == 0x20;
    assert XTime(0x20) == 0x40 && XTime(0x40) == 0x80 && XTime(0x80) == 0x1B && XTime(0x1B) == 0x36;
    hide XTime;
    assert Power(0) == 1;
    assert Power(1) == 2;
    assert Power(2) == 4;
    assert Power(3) == 8;
    assert Power(4) == 16;
    assert Power(5) == 32;
    assert Power(6) == 64;
    assert Power(7) == 128;
    assert Power(8) == 0x1B;
    assert Power(9) == 0x36;
  }

  /** Byte `k` of word `i` in a schedule of `n` words. */
  lemma {:induction false} ScheduleAt(key: Bytes, nk: nat, n: nat, i: nat, k: nat)
    requires nk > 0 && |key| == 4 * nk && i < n && k < 4
    ensures Schedule(key, nk, n)[4 * i + k] == WordBytes(ScheduleWord(key, nk, i))[k]
  {
    hide ScheduleWord, WordBytes;
    if i < n - 1 {
      ScheduleAt(key, nk, n - 1, i, k);
    }
  }

  /** One word of the schedule from the two it depends on. */
  lemma WordUnfold(key: Bytes, nk: nat, i: nat)
    requires (nk == 4 || nk == 6 || nk == 8) && |key| == 4 * nk && i >= nk
    ensures var w, v, u := ScheduleWord(key, nk, i), ScheduleWord(key, nk, i - nk), ScheduleWord(key, nk, i - 1);
            if i % nk == 0 then w == XorWord(v, XorWord(SubWord(RotWord(u)), Word(Power(i / nk - 1), 0, 0, 0)))
            else if nk == 8 && i % 8 == 4 then w == XorWord(v, SubWord(u))
            else w == XorWord(v, u)
  {
    hide XorWord, SubWord, RotWord, Power;
  }

  lemma TurnedBytes(v: Word, u: Word, c: bv8, k: nat)
    requires k < 4
    ensures WordBytes(XorWord(v, XorWord(SubWord(RotWord(u)), Word(c, 0, 0, 0))))[k]
         == Plus(WordBytes(v)[k], Plus(SBox(WordBytes(u)[if k == 3 then 0 else k + 1]), if k == 0 then c else 0))
  {
    hide SBox, Plus;
  }

  lemma PlainBytes(v: Word, u: Word, k: nat)
    requires k < 4
    ensures WordBytes(XorWord(v, u))[k] == Plus(WordBytes(v)[k], WordBytes(u)[k])
  {
    hide Plus;
  }

  lemma SubstitutedBytes(u: Word, k: nat)
    requires k < 4
    ensures WordBytes(SubWord(u))[k] == SBox(WordBytes(u)[k])
  {
    hide SBox;
  }

  /** The round keys are the schedule of the standard, for all three key sizes. */
  lemma RoundKeysAreSchedule(key: Bytes)
    requires |key| == 16 || |key| == 24 || |key| == 32
    ensures |key| == 16 ==> IsSchedule(key, RoundKeys(key), 4, 10)
    ensures |key| == 24 ==> IsSchedule(key, RoundKeys(key), 6, 12)
    ensures |key| == 32 ==> IsSchedule(key, RoundKeys(key), 8, 14)
  {
    hide Schedule, Recurs;
    var nk, nr := |key| / 4, RoundCount(|key|);
    var r := RoundKeys(key);
    forall j | 0 <= j < 4 * nk
      ensures r[j] == key[j]
    {
      KeyFirst(key, nk, 4 * (nr + 1), j / 4, j % 4);
    }
    assert r[..4 * nk] == key;
    forall i, k | nk <= i < 4 * (nr + 1) && 0 <= k < 4
      ensures i / nk <= 10 && Recurs(r, nk, i, k)
    {
      FewTurns(nk, nr, i);
      ByteRecurs(key, nk, 4 * (nr + 1), i, k);
    }
  }

  lemma FewTurns(nk: nat, nr: nat, i: nat)
    requires (nk == 4 && nr == 10) || (nk == 6 && nr == 12) || (nk == 8 && nr == 14)
    requires i < 4 * (nr + 1)
    ensures i / nk <= 10
  {
  }

  lemma KeyFirst(key: Bytes, nk: nat, n: nat, i: nat, k: nat)
    requires |key| == 4 * nk && i < nk <= n && k < 4
    ensures Schedule(key, nk, n)[4 * i + k] == key[4 * i + k]
  {
    ScheduleAt(key, nk, n, i, k);
  }

  lemma ByteRecurs(key: Bytes, nk: nat, n: nat, i: nat, k: nat)
    requires (nk == 4 || nk == 6 || nk == 8) && |key| == 4 * nk && nk <= i < n && i / nk <= 10 && k < 4
    ensures Recurs(Schedule(key, nk, n), nk, i, k)
  {
    hide Recurs;
    if i % nk == 0 {
      TurnRecurs(key, nk, n, i, k);
    } else {
      PlainRecurs(key, nk, n, i, k);
    }
  }

  lemma TurnRecurs(key: Bytes, nk: nat, n: nat, i: nat, k: nat)
    requires (nk == 4 || nk == 6 || nk == 8) && |key| == 4 * nk && nk <= i < n && i / nk <= 10 && k < 4 && i % nk == 0
    ensures Recurs(Schedule(key, nk, n), nk, i, k)
  {
    hide SBox, Plus, Schedule, ScheduleWord, XorWord, SubWord, RotWord, WordBytes, Power;
    var v, u := ScheduleWord(key, nk, i - nk), ScheduleWord(key, nk, i - 1);
    WordUnfold(key, nk, i);
    AtLeastOne(i, nk);
    PowersAreConstants();
    TurnedBytes(v, u, Power(i / nk - 1), k);
    ScheduleAt(key, nk, n, i, k);
    ScheduleAt(key, nk, n, i - nk, k);
    ScheduleAt(key, nk, n, i - 1, if k == 3 then 0 else k + 1);
  }

  lemma PlainRecurs(key: Bytes, nk: nat, n: nat, i: nat, k: nat)
    requires (nk == 4 || nk == 6 || nk == 8) && |key| == 4 * nk && nk <= i < n && i / nk <= 10 && k < 4 && i % nk != 0
    ensures Recurs(Schedule(key, nk, n), nk, i, k)
  {
    hide SBox, Plus, Schedule, ScheduleWord, XorWord, SubWord, RotWord, WordBytes, Power;
    var v, u := ScheduleWord(key, nk, i - nk), ScheduleWord(key, nk, i - 1);
    WordUnfold(key, nk, i);
    PlainBytes(v, u, k);
    PlainBytes(v, SubWord(u), k);
    SubstitutedBytes(u, k);
    ScheduleAt(key, nk, n, i, k);
    ScheduleAt(key, nk, n, i - nk, k);
    ScheduleAt(key, nk, n, i - 1, k);
  }

  /** One recurrence and one beginning: two schedules of a key agree byte by byte. */
  lemma {:induction false} SameSchedule(key: Bytes, r: Bytes, q: Bytes, nk: nat, nr: nat, m: nat)
    requires (nk == 4 && nr == 10) || (nk == 6 && nr == 12) || (nk == 8 && nr == 14)
    requires IsSchedule(key, r, nk, nr) && IsSchedule(key, q, nk, nr) && 4 * nk <= m <= 16 * (nr + 1)
    ensures r[..m] == q[..m]
    decreases m
  {
    hide Recurs;
    if m > 4 * nk {
      SameSchedule(key, r, q, nk, nr, m - 1);
      var i, k := (m - 1) / 4, (m - 1) % 4;
      assert 4 * i + k == m - 1;
      FewTurns(nk, nr, i);
      assert Recurs(r, nk, i, k) && Recurs(q, nk, i, k);
      assert forall p :: 0 <= p < m - 1 ==> r[p] == r[..m - 1][p] && q[p] == q[..m - 1][p];
      SameByte(r, q, nk, i, k);
      assert r[..m] == r[..m - 1] + [r[m - 1]] && q[..m] == q[..m - 1] + [q[m - 1]];
    }
  }

  lemma SameByte(r: Bytes, q: Bytes, nk: nat, i: nat, k: nat)
    requires 4 <= nk <= i && i / nk <= 10 && k < 4 && 4 * i + 4 <= |r| && |r| == |q|
    requires Recurs(r, nk, i, k) && Recurs(q, nk, i, k) && forall p :: 0 <= p < 4 * i + k ==> r[p] == q[p]
    ensures r[4 * i + k] == q[4 * i + k]
  {
    hide SBox, Plus;
  }

  // ---------------------------------------------------------------------- the rounds

  /** The byte in row `r` of column `c`. */
  function At(s: Bytes, r: nat, c: nat): bv8
    requires |s| == 16 && r < 4 && c < 4
  {
    s[r + 4 * c]
  }

  /** The byte in row `r` of column `c` once the bytes are substituted and the rows shifted. */
  function Moved(s: Bytes, r: nat, c: nat): bv8
    requires |s| == 16 && r < 4 && c < 4
  {
    SBox(At(s, r, (c + r) % 4))
  }

  /** That byte once the columns are mixed too: twice its own, three times the next below, once the other two. */
  function Mixed(s: Bytes, r: nat, c: nat): bv8
    requires |s| == 16 && r < 4 && c < 4
  {
    Sum(GMul(Moved(s, r, c), 2), GMul(Moved(s, (r + 1) % 4, c), 3), Moved(s, (r + 2) % 4, c), Moved(s, (r + 3) % 4, c))
  }

  /** `t` follows `s` by a full round with the given number. */
  predicate IsRound(s: Bytes, t: Bytes, keys: Bytes, round: nat)
    requires |s| == 16 && 16 * round + 16 <= |keys|
  {
    |t| == 16 && forall r, c :: 0 <= r < 4 && 0 <= c < 4 ==> At(t, r, c) == Plus(Mixed(s, r, c), keys[16 * round + (r + 4 * c)])
  }

  /** `t` follows `s` by the last round, which does not mix columns. */
  predicate IsLastRound(s: Bytes, t: Bytes, keys: Bytes, round: nat)
    requires |s| == 16 && 16 * round + 16 <= |keys|
  {
    |t| == 16 && forall r, c :: 0 <= r < 4 && 0 <= c < 4 ==> At(t, r, c) == Plus(Moved(s, r, c), keys[16 * round + (r + 4 * c)])
  }

  /** A computation of the cipher: the states before each of its `nr` rounds, from `input` to `output`. */
  predicate IsComputation(keys: Bytes, nr: nat, input: Bytes, states: seq<Bytes>, output: Bytes)
    requires |input| == 16 && nr >= 1 && 16 * nr + 16 <= |keys|
  {
    && |states| == nr && (forall k :: 0 <= k < nr ==> |states[k]| == 16)
    && (forall i :: 0 <= i < 16 ==> states[0][i] == Plus(input[i], keys[i]))
    && (forall k :: 1 <= k < nr ==> IsRound(states[k - 1], states[k], keys, k))
    && IsLastRound(states[nr - 1], output, keys, nr)
  }

  lemma MovedIs(s: Bytes, r: nat, c: nat)
    requires |s| == 16 && r < 4 && c < 4
    ensures ShiftRows(SubBytes(s))[r + 4 * c] == Moved(s, r, c)
  {
    hide SBox, ShiftRows;
    ShiftRowsMoves(SubBytes(s), r, c);
  }

  lemma ColumnByte(a: bv8, b: bv8, c: bv8, d: bv8)
    ensures var m := MixColumn(a, b, c, d);
            && m[0] == Sum(GMul(a, 2), GMul(b, 3), c, d) && m[1] == Sum(GMul(b, 2), GMul(c, 3), d, a)
            && m[2] == Sum(GMul(c, 2), GMul(d, 3), a, b) && m[3] == Sum(GMul(d, 2), GMul(a, 3), b, c)
  {
    hide Sum, GMul;
  }

  lemma MixedIs(s: Bytes, r: nat, c: nat)
    requires |s| == 16 && r < 4 && c < 4
    ensures MixColumns(ShiftRows(SubBytes(s)))[r + 4 * c] == Mixed(s, r, c)
  {
    hide Sum, GMul, SubBytes, ShiftRows, MixColumns, MixColumn, Moved, Mixed;
    var t := ShiftRows(SubBytes(s));
    MixColumnsAt(t, c);
    ColumnByte(t[4 * c], t[4 * c + 1], t[4 * c + 2], t[4 * c + 3]);
    MovedIs(s, 0, c);
    MovedIs(s, 1, c);
    MovedIs(s, 2, c);
    MovedIs(s, 3, c);
    assert MixColumns(t)[r + 4 * c] == MixColumns(t)[4 * c..4 * c + 4][r];
    MixedRows(s, c);
  }

  lemma MixedRows(s: Bytes, c: nat)
    requires |s| == 16 && c < 4
    ensures Mixed(s, 0, c) == Sum(GMul(Moved(s, 0, c), 2), GMul(Moved(s, 1, c), 3), Moved(s, 2, c), Moved(s, 3, c))
    ensures Mixed(s, 1, c) == Sum(GMul(Moved(s, 1, c), 2), GMul(Moved(s, 2, c), 3), Moved(s, 3, c), Moved(s, 0, c))
    ensures Mixed(s, 2, c) == Sum(GMul(Moved(s, 2, c), 2), GMul(Moved(s, 3, c), 3), Moved(s, 0, c), Moved(s, 1, c))
    ensures Mixed(s, 3, c) == Sum(GMul(Moved(s, 3, c), 2), GMul(Moved(s, 0, c), 3), Moved(s, 1, c), Moved(s, 2, c))
  {
    hide Sum, GMul, Moved;
  }

  lemma AddedAt(s: Bytes, keys: Bytes, round: nat, i: nat)
    requires |s| == 16 && 16 * round + 16 <= |keys| && i < 16
    ensures AddRoundKey(s, keys, round)[i] == Plus(s[i], keys[16 * round + i])
  {
  }

  lemma RoundIs(s: Bytes, keys: Bytes, round: nat)
    requires |s| == 16 && 16 * round + 16 <= |keys|
    ensures IsRound(s, AddRoundKey(MixColumns(ShiftRows(SubBytes(s))), keys, round), keys, round)
    ensures IsLastRound(s, AddRoundKey(ShiftRows(SubBytes(s)), keys, round), keys, round)
  {
    hide Plus, Mixed, Moved, AddRoundKey, MixColumns, ShiftRows, SubBytes;
    var moved := ShiftRows(SubBytes(s));
    forall r, c | 0 <= r < 4 && 0 <= c < 4
      ensures At(AddRoundKey(MixColumns(moved), keys, round), r, c) == Plus(Mixed(s, r, c), keys[16 * round + (r + 4 * c)])
      ensures At(AddRoundKey(moved, keys, round), r, c) == Plus(Moved(s, r, c), keys[16 * round + (r + 4 * c)])
    {
      AddedAt(MixColumns(moved), keys, round, r + 4 * c);
      AddedAt(moved, keys, round, r + 4 * c);
      MixedIs(s, r, c);
      MovedIs(s, r, c);
    }
  }

  /** Sixteen equations determine a block. */
  lemma SameBlock(t: Bytes, u: Bytes)
    requires |t| == |u| == 16 && forall r, c :: 0 <= r < 4 && 0 <= c < 4 ==> At(t, r, c) == At(u, r, c)
    ensures t == u
  {
    forall i | 0 <= i < 16
      ensures t[i] == u[i]
    {
      assert At(t, i % 4, i / 4) == At(u, i % 4, i / 4);
    }
  }

  lemma OneNext(s: Bytes, t: Bytes, u: Bytes, keys: Bytes, round: nat)
    requires |s| == 16 && 16 * round + 16 <= |keys|
    ensures IsRound(s, t, keys, round) && IsRound(s, u, keys, round) ==> t == u
    ensures IsLastRound(s, t, keys, round) && IsLastRound(s, u, keys, round) ==> t == u
  {
    hide Plus, Mixed, Moved;
    if (IsRound(s, t, keys, round) && IsRound(s, u, keys, round)) || (IsLastRound(s, t, keys, round) && IsLastRound(s, u, keys, round)) {
      SameBlock(t, u);
    }
  }

  lemma {:induction false} StatesAre(keys: Bytes, nr: nat, input: Bytes, states: seq<Bytes>, output: Bytes, k: nat)
    requires |input| == 16 && nr >= 1 && 16 * nr + 16 <= |keys| && k < nr
    requires IsComputation(keys, nr, input, states, output)
    ensures states[k] == Rounds(keys, k, input)
  {
    hide Plus, IsRound, IsLastRound, AddRoundKey, MixColumns, ShiftRows, SubBytes;
    if k == 0 {
      forall i | 0 <= i < 16
        ensures states[0][i] == AddRoundKey(input, keys, 0)[i]
      {
        AddedAt(input, keys, 0, i);
      }
    } else {
      StatesAre(keys, nr, input, states, output, k - 1);
      RoundIs(states[k - 1], keys, k);
      OneNext(states[k - 1], states[k], Rounds(keys, k, input), keys, k);
    }
  }

  /** Encryption yields what the computation of the standard ends in, and nothing else. */
  lemma EncryptIff(keys: Bytes, nr: nat, input: Bytes, output: Bytes)
    requires |input| == 16 && nr >= 1 && 16 * nr + 16 <= |keys|
    ensures Encrypt(keys, nr, input) == output <==> exists states :: IsComputation(keys, nr, input, states, output)
  {
    hide Plus, IsRound, IsLastRound, AddRoundKey, MixColumns, ShiftRows, SubBytes, Rounds;
    if states :| IsComputation(keys, nr, input, states, output) {
      StatesAre(keys, nr, input, states, output, nr - 1);
      RoundIs(states[nr - 1], keys, nr);
      OneNext(states[nr - 1], output, Encrypt(keys, nr, input), keys, nr);
    }
    var states := seq(nr, k requires 0 <= k < nr => Rounds(keys, k, input));
    RoundsCompute(keys, nr, input, states);
    RoundIs(states[nr - 1], keys, nr);
    assert IsComputation(keys, nr, input, states, Encrypt(keys, nr, input));
  }

  lemma RoundsCompute(keys: Bytes, nr: nat, input: Bytes, states: seq<Bytes>)
    requires |input| == 16 && nr >= 1 && 16 * nr + 16 <= |keys|
    requires |states| == nr && forall k :: 0 <= k < nr ==> |states[k]| == 16 && states[k] == Rounds(keys, k, input)
    ensures forall i :: 0 <= i < 16 ==> states[0][i] == Plus(input[i], keys[i])
    ensures forall k :: 1 <= k < nr ==> IsRound(states[k - 1], states[k], keys, k)
  {
    hide Plus, IsRound, AddRoundKey, MixColumns, ShiftRows, SubBytes;
    forall i | 0 <= i < 16
      ensures states[0][i] == Plus(input[i], keys[i])
    {
      AddedAt(input, keys, 0, i);
    }
    forall k | 1 <= k < nr
      ensures IsRound(states[k - 1], states[k], keys, k)
    {
      RoundIs(states[k - 1], keys, k);
    }
  }
}
