/**
  FIPS 46-3 said on single bits: which input bits and key bits each output bit of a round
  depends on, the substitution boxes and the round permutation written out, the key
  schedule as one rotation per round, and the cipher as a row of states.
 */
module DesStandard {
  import opened DesTables
  import opened Des

  // ------------------------------------------------------------------- substitution boxes

  /** The rows of the eight boxes, a hexadecimal digit for each entry. */
  function StandardRow(box: nat, row: nat): nat {
    if box == 0 then
      if row == 0 then 0xE4D1_2FB8_3A6C_5907 else if row == 1 then 0x0F74_E2D1_A6CB_9538
      else if row == 2 then 0x41E8_D62B_FC97_3A50 else 0xFC82_4917_5B3E_A06D
    else if box == 1 then
      if row == 0 then 0xF18E_6B34_972D_C05A else if row == 1 then 0x3D47_F28E_C01A_69B5
      else if row == 2 then 0x0E7B_A4D1_58C6_932F else 0xD8A1_3F42_B67C_05E9
    else if box == 2 then
      if row == 0 then 0xA09E_63F5_1DC7_B428 else if row == 1 then 0xD709_346A_285E_CBF1
      else if row == 2 then 0xD649_8F30_B12C_5AE7 else 0x1AD0_6987_4FE3_B52C
    else if box == 3 then
      if row == 0 then 0x7DE3_069A_1285_BC4F else if row == 1 then 0xD8B5_6F03_472C_1AE9
      else if row == 2 then 0xA690_CB7D_F13E_5284 else 0x3F06_A1D8_945B_C72E
    else if box == 4 then
      if row == 0 then 0x2C41_7AB6_853F_D0E9 else if row == 1 then 0xEB2C_47D1_50FA_3986
      else if row == 2 then 0x421B_AD78_F9C5_630E else 0xB8C7_1E2D_6F09_A453
    else if box == 5 then
      if row == 0 then 0xC1AF_9268_0D34_E75B else if row == 1 then 0xAF42_7C95_61DE_0B38
      else if row == 2 then 0x9EF5_28C3_704A_1DB6 else 0x432C_95FA_BE17_608D
    else if box == 6 then
      if row == 0 then 0x4B2E_F08D_3C97_5A61 else if row == 1 then 0xD0B7_491A_E35C_2F86
      else if row == 2 then 0x14BD_C37E_AF68_0592 else 0x6BD8_14A7_950F_E23C
    else
      if row == 0 then 0xD284_6FB1_A93E_50C7 else if row == 1 then 0x1FD8_A374_C56B_0E92
      else if row == 2 then 0x7B41_9CE2_06AD_F358 else 0x21E7_4A8D_FC90_356B
  }

  /** Sixteen digits as one number. */
  function Packed(r: seq<nat>): nat
    requires |r| == 16
  {
    Four(r[0], r[1], r[2], r[3]) * 0x1_0000_0000_0000 + Four(r[4], r[5], r[6], r[7]) * 0x1_0000_0000
    + Four(r[8], r[9], r[10], r[11]) * 0x1_0000 + Four(r[12], r[13], r[14], r[15])
  }

  function Four(a: nat, b: nat, c: nat, d: nat): nat {
    0x1000 * a + 0x100 * b + 0x10 * c + d
  }

  predicate IsRow(r: seq<nat>, number: nat) {
    && |r| == 16 && Packed(r) == number
    && r[0] < 16 && r[1] < 16 && r[2] < 16 && r[3] < 16 && r[4] < 16 && r[5] < 16 && r[6] < 16 && r[7] < 16
    && r[8] < 16 && r[9] < 16 && r[10] < 16 && r[11] < 16 && r[12] < 16 && r[13] < 16 && r[14] < 16 && r[15] < 16
  }

  lemma Box0(row: nat)
    requires row < 4
    ensures IsRow(SBoxRow(0, row), StandardRow(0, row))
  {
    if row == 0 {} else if row == 1 {} else if row == 2 {} else { assert row == 3; }
  }

  lemma Box1(row: nat)
    requires row < 4
    ensures IsRow(SBoxRow(1, row), StandardRow(1, row))
  {
    if row == 0 {} else if row == 1 {} else if row == 2 {} else { assert row == 3; }
  }

  lemma Box2(row: nat)
    requires row < 4
    ensures IsRow(SBoxRow(2, row), StandardRow(2, row))
  {
    if row == 0 {} else if row == 1 {} else if row == 2 {} else { assert row == 3; }
  }

  lemma Box3(row: nat)
    requires row < 4
    ensures IsRow(SBoxRow(3, row), StandardRow(3, row))
  {
    if row == 0 {} else if row == 1 {} else if row == 2 {} else { assert row == 3; }
  }

  lemma Box4(row: nat)
    requires row < 4
    ensures IsRow(SBoxRow(4, row), StandardRow(4, row))
  {
    if row == 0 {} else if row == 1 {} else if row == 2 {} else { assert row == 3; }
  }

  lemma Box5(row: nat)
    requires row < 4
    ensures IsRow(SBoxRow(5, row), StandardRow(5, row))
  {
    if row == 0 {} else if row == 1 {} else if row == 2 {} else { assert row == 3; }
  }

  lemma Box6(row: nat)
    requires row < 4
    ensures IsRow(SBoxRow(6, row), StandardRow(6, row))
  {
    if row == 0 {} else if row == 1 {} else if row == 2 {} else { assert row == 3; }
  }

  lemma Box7(row: nat)
    requires row < 4
    ensures IsRow(SBoxRow(7, row), StandardRow(7, row))
  {
    if row == 0 {} else if row == 1 {} else if row == 2 {} else { assert row == 3; }
  }

  /** Every row of every box, entry by entry. */
  lemma BoxesAre(box: nat, row: nat)
    requires box < 8 && row < 4
    ensures IsRow(SBoxRow(box, row), StandardRow(box, row))
  {
    hide IsRow, SBoxRow, StandardRow;
    if box == 0 { Box0(row); } else if box == 1 { Box1(row); } else if box == 2 { Box2(row); } else if box == 3 { Box3(row); }
    else if box == 4 { Box4(row); } else if box == 5 { Box5(row); } else if box == 6 { Box6(row); } else { Box7(row); }
  }

  // ------------------------------------------------------------------------------ tables

  lemma {:induction false} RowAt(row: nat -> seq<nat>, n: nat, size: nat, r: nat, c: nat)
    requires (forall k :: |row(k)| == size) && r < n && c < size
    ensures |Flat(row, n)| == size * n && 0 <= size * r + c < size * n && Flat(row, n)[size * r + c] == row(r)[c]
  {
    RowsLength(row, n - 1, size);
    RowsLength(row, n, size);
    assert size * n == size * (n - 1) + size;
    if r < n - 1 {
      RowAt(row, n - 1, size, r, c);
    }
  }

  lemma {:induction false} RowsLength(row: nat -> seq<nat>, n: nat, size: nat)
    requires forall k :: |row(k)| == size
    ensures |Flat(row, n)| == size * n
  {
    if n > 0 {
      RowsLength(row, n - 1, size);
      assert size * n == size * (n - 1) + size;
    }
  }

  /** Expansion: six bits for each box, the four of its nibble and their neighbours, around the end. */
  lemma ExpansionIs(box: nat, k: nat)
    requires box < 8 && k < 6
    ensures E()[6 * box + k] - 1 == (4 * box + k + 31) % 32
  {
    hide ERow;
    RowAt(ERow, 8, 6, box, k);
    ExpansionRow(box, k);
  }

  lemma ExpansionRow(box: nat, k: nat)
    requires box < 8 && k < 6
    ensures ERow(box)[k] - 1 == (4 * box + k + 31) % 32
  {
    if box == 0 {} else if box == 1 {} else if box == 2 {} else if box == 3 {}
    else if box == 4 {} else if box == 5 {} else if box == 6 {} else { assert box == 7; }
  }

  /** Where the round permutation takes output bit `j` of box `box`. */
  function Goes(box: nat, j: nat): nat {
    var places :=
      if box == 0 then [9, 17, 23, 31] else if box == 1 then [13, 28, 2, 18] else if box == 2 then [24, 16, 30, 6]
      else if box == 3 then [26, 20, 10, 1] else if box == 4 then [8, 14, 25, 3] else if box == 5 then [4, 29, 11, 19]
      else if box == 6 then [32, 12, 22, 7] else [5, 27, 15, 21];
    if j < 4 then places[j] else 0
  }

  lemma PermutationIs(box: nat, j: nat)
    requires box < 8 && j < 4
    ensures 1 <= Goes(box, j) <= 32 && P()[Goes(box, j) - 1] == 4 * box + j + 1
  {
    var place := Goes(box, j);
    PlaceIs(box, j);
    RowAt(PRow, 8, 4, (place - 1) / 4, (place - 1) % 4);
    assert 4 * ((place - 1) / 4) + (place - 1) % 4 == place - 1;
  }

  lemma PlaceIs(box: nat, j: nat)
    requires box < 8 && j < 4
    ensures 1 <= Goes(box, j) <= 32 && PRow((Goes(box, j) - 1) / 4)[(Goes(box, j) - 1) % 4] == 4 * box + j + 1
  {
    if box == 0 {} else if box == 1 {} else if box == 2 {} else if box == 3 {}
    else if box == 4 {} else if box == 5 {} else if box == 6 {} else { assert box == 7; }
  }

  // ------------------------------------------------------------------------- one round

  /** Input bit `k` of a box: a bit of the half and a bit of the subkey. */
  predicate Input(half: Bits, subkey: Bits, box: nat, k: nat)
    requires |half| == 32 && |subkey| == 48 && box < 8 && k < 6
  {
    half[(4 * box + k + 31) % 32] != subkey[6 * box + k]
  }

  /** The entry a box chooses: the outer two input bits name the row, the inner four the column. */
  function Entry(half: Bits, subkey: Bits, box: nat): nat
    requires |half| == 32 && |subkey| == 48 && box < 8
  {
    var i0, i1, i2 := Digit(Input(half, subkey, box, 0)), Digit(Input(half, subkey, box, 1)), Digit(Input(half, subkey, box, 2));
    var i3, i4, i5 := Digit(Input(half, subkey, box, 3)), Digit(Input(half, subkey, box, 4)), Digit(Input(half, subkey, box, 5));
    SBoxRow(box, 2 * i0 + i5)[8 * i1 + 4 * i2 + 2 * i3 + i4]
  }

  /** Bit `j` of a four-bit number, the most significant first. */
  predicate NibbleBit(v: nat, j: nat) {
    (if j == 0 then v / 8 else if j == 1 then v / 4 else if j == 2 then v / 2 else v) % 2 == 1
  }

  lemma InputIs(half: Bits, subkey: Bits, box: nat, k: nat)
    requires |half| == 32 && |subkey| == 48 && box < 8 && k < 6
    ensures Xor(Permute(half, E()), subkey)[6 * box..6 * box + 6][k] == Input(half, subkey, box, k)
  {
    hide E;
    ExpansionIs(box, k);
  }

  lemma EntryIs(half: Bits, subkey: Bits, box: nat)
    requires |half| == 32 && |subkey| == 48 && box < 8
    ensures Substitute(box, Xor(Permute(half, E()), subkey)[6 * box..6 * box + 6]) == Nibble(Entry(half, subkey, box))
  {
    hide Input, Permute, Xor, E, Nibble, SBoxRow;
    InputIs(half, subkey, box, 0);
    InputIs(half, subkey, box, 1);
    InputIs(half, subkey, box, 2);
    InputIs(half, subkey, box, 3);
    InputIs(half, subkey, box, 4);
    InputIs(half, subkey, box, 5);
  }

  lemma {:induction false} SubstitutedAt(mixed: Bits, n: nat, box: nat)
    requires |mixed| == 48 && box < n <= 8
    ensures Substituted(mixed, n)[4 * box..4 * box + 4] == Substitute(box, mixed[6 * box..6 * box + 6])
  {
    hide Substitute;
    if box < n - 1 {
      SubstitutedAt(mixed, n - 1, box);
      assert Substituted(mixed, n)[4 * box..4 * box + 4] == Substituted(mixed, n - 1)[4 * box..4 * box + 4];
    }
  }

  /** The round function bit by bit: where each output bit of each box ends up. */
  lemma RoundBit(half: Bits, subkey: Bits, box: nat, j: nat)
    requires |half| == 32 && |subkey| == 48 && box < 8 && j < 4
    ensures 1 <= Goes(box, j) <= 32
    ensures F(half, subkey)[Goes(box, j) - 1] == NibbleBit(Entry(half, subkey, box), j)
  {
    hide Entry, E, P, Goes, Substitute, Substituted, Xor;
    PermutationIs(box, j);
    EntryIs(half, subkey, box);
    var mixed := Xor(Permute(half, E()), subkey);
    SubstitutedAt(mixed, 8, box);
    assert Substituted(mixed, 8)[4 * box + j] == Substituted(mixed, 8)[4 * box..4 * box + 4][j];
  }

  // ------------------------------------------------------------------------ the subkeys

  /** How far both key halves are rotated in each round, counted from the start. */
  function Turned(round: nat): nat {
    if round < 16 then [1, 2, 4, 6, 8, 10, 12, 14, 15, 17, 19, 21, 23, 25, 27, 28][round] else 0
  }

  lemma TurnedSteps(round: nat)
    requires round < 16
    ensures Turned(round) == Shift(round) + if round == 0 then 0 else Turned(round - 1)
    ensures 1 <= Turned(round) <= 28
  {
  }

  /** Bit `q` of a key half: every eighth bit of the key, from the bottom up, the parity bits left out. */
  function KeyBit(right: bool, q: nat): nat
    requires q < 28
  {
    if !right then 56 + q / 8 - 8 * (q % 8)
    else if q < 24 then 62 - q / 8 - 8 * (q % 8)
    else 27 - 8 * (q - 24)
  }

  lemma LeftRowIs(r: nat, c: nat)
    requires r < 4 && c < 7
    ensures Pc1Row(r)[c] - 1 == KeyBit(false, 7 * r + c)
  {
    if r == 0 {} else if r == 1 {} else if r == 2 {} else { assert r == 3; }
  }

  lemma RightRowIs(r: nat, c: nat)
    requires r < 4 && c < 7
    ensures Pc1Row(4 + r)[c] - 1 == KeyBit(true, 7 * r + c)
  {
    if r == 0 {} else if r == 1 {} else if r == 2 {} else { assert r == 3; }
  }

  lemma KeyTableIs(right: bool, q: nat)
    requires q < 28
    ensures Pc1()[(if right then 28 else 0) + q] - 1 == KeyBit(right, q)
  {
    hide Pc1Row, KeyBit;
    var r, c := (if right then 4 else 0) + q / 7, q % 7;
    RowAt(Pc1Row, 8, 7, r, c);
    if right { RightRowIs(q / 7, c); } else { LeftRowIs(q / 7, c); }
    assert 7 * (q / 7) + q % 7 == q;
    assert 7 * r + c == (if right then 28 else 0) + q;
  }

  lemma {:induction false} HalvesAre(key: Bits, round: nat, q: nat)
    requires |key| == 64 && round < 16 && q < 28
    ensures Halves(key, round + 1).0[q] == key[KeyBit(false, (q + Turned(round)) % 28)]
    ensures Halves(key, round + 1).1[q] == key[KeyBit(true, (q + Turned(round)) % 28)]
    decreases round
  {
    hide Shift, Turned, KeyBit, Pc1, Halves;
    var k := Shift(round);
    TurnedSteps(round);
    HalvesStep(key, round, q);
    var p := (q + k) % 28;
    if round == 0 {
      FirstHalves(key, p);
    } else {
      HalvesAre(key, round - 1, p);
      assert (p + Turned(round - 1)) % 28 == (q + Turned(round)) % 28;
    }
  }

  lemma HalvesStep(key: Bits, round: nat, q: nat)
    requires |key| == 64 && q < 28
    ensures var p := (q + Shift(round)) % 28;
            && Halves(key, round + 1).0[q] == Halves(key, round).0[p]
            && Halves(key, round + 1).1[q] == Halves(key, round).1[p]
  {
    hide Pc1, Permute;
  }

  lemma FirstHalves(key: Bits, q: nat)
    requires |key| == 64 && q < 28
    ensures Halves(key, 0).0[q] == key[KeyBit(false, q)] && Halves(key, 0).1[q] == key[KeyBit(true, q)]
  {
    hide Pc1, KeyBit;
    KeyTableIs(false, q);
    KeyTableIs(true, q);
  }

  /** The selected positions of both halves, six for each box; those of the right half count on from 28. */
  function Selected(box: nat, k: nat): (p: nat)
    ensures p < 56
  {
    var row :=
      if box == 0 then [13, 16, 10, 23, 0, 4] else if box == 1 then [2, 27, 14, 5, 20, 9]
      else if box == 2 then [22, 18, 11, 3, 25, 7] else if box == 3 then [15, 6, 26, 19, 12, 1]
      else if box == 4 then [40, 51, 30, 36, 46, 54] else if box == 5 then [29, 39, 50, 44, 32, 47]
      else if box == 6 then [43, 48, 38, 55, 33, 52] else [45, 41, 49, 35, 28, 31];
    if k < 6 then row[k] else 0
  }

  lemma SelectionIs(box: nat, k: nat)
    requires box < 8 && k < 6
    ensures Pc2()[6 * box + k] - 1 == Selected(box, k)
  {
    hide Pc2Row, Selected;
    RowAt(Pc2Row, 8, 6, box, k);
    SelectionRow(box, k);
  }

  lemma SelectionRow(box: nat, k: nat)
    requires box < 8 && k < 6
    ensures Pc2Row(box)[k] - 1 == Selected(box, k)
  {
    if box == 0 {} else if box == 1 {} else if box == 2 {} else if box == 3 {}
    else if box == 4 {} else if box == 5 {} else if box == 6 {} else { assert box == 7; }
  }

  /** Which bit of the key is which bit of a subkey. */
  lemma SubkeyBit(key: Bits, round: nat, box: nat, k: nat)
    requires |key| == 64 && round < 16 && box < 8 && k < 6
    ensures var p := Selected(box, k);
            Subkey(key, round)[6 * box + k] ==
            if p < 28 then key[KeyBit(false, (p + Turned(round)) % 28)] else key[KeyBit(true, (p - 28 + Turned(round)) % 28)]
  {
    hide Pc2, Selected, KeyBit, Turned, Halves;
    var p := Selected(box, k);
    SelectionIs(box, k);
    HalvesAre(key, round, if p < 28 then p else p - 28);
    assert Subkey(key, round)[6 * box + k] == (Halves(key, round + 1).0 + Halves(key, round + 1).1)[p];
  }

  // ------------------------------------------------------------------------- the cipher

  /** Where the initial permutation takes bit `8 * row + column` from. */
  function From(row: nat, column: nat): (i: nat)
    requires row < 8 && column < 8
    ensures i < 64
  {
    8 * (7 - column) + if row < 4 then 2 * row + 1 else 2 * row - 8
  }

  /** `t` is `s` with its bits in the order of the initial permutation. */
  predicate IsPermuted(s: Bits, t: Bits) {
    |s| == 64 && |t| == 64 && forall r, c :: 0 <= r < 8 && 0 <= c < 8 ==> t[8 * r + c] == s[From(r, c)]
  }

  /** The right half of the next state: the left one, changed where the boxes put a one. */
  predicate IsNext(l: Bits, r: Bits, subkey: Bits, next: Bits)
    requires |l| == 32 && |r| == 32 && |subkey| == 48
  {
    && |next| == 32
    && forall box, j :: 0 <= box < 8 && 0 <= j < 4 ==>
         var p := Goes(box, j);
         1 <= p <= 32 && next[p - 1] == (l[p - 1] != NibbleBit(Entry(r, subkey, box), j))
  }

  /** The halves before the first round and after each; the last two change sides before the final permutation. */
  predicate IsComputation(block: Bits, keys: seq<Bits>, l: seq<Bits>, r: seq<Bits>, out: Bits)
    requires |block| == 64 && forall i :: 0 <= i < |keys| ==> |keys[i]| == 48
  {
    var n := |keys|;
    && |l| == n + 1 && |r| == n + 1 && (forall i :: 0 <= i <= n ==> |l[i]| == 32 && |r[i]| == 32)
    && IsPermuted(block, l[0] + r[0])
    && (forall i :: 0 <= i < n ==> l[i + 1] == r[i] && IsNext(l[i], r[i], keys[i], r[i + 1]))
    && IsPermuted(out, r[n] + l[n])
  }

  lemma PermutedIs(s: Bits, t: Bits)
    requires |s| == 64
    ensures IsPermuted(s, t) <==> t == Permute(s, Ip())
  {
    hide Ip, From;
    forall r, c | 0 <= r < 8 && 0 <= c < 8
      ensures Permute(s, Ip())[8 * r + c] == s[From(r, c)]
    {
      IpAt(r, c);
      FromIs(r, c);
    }
    if IsPermuted(s, t) {
      forall i | 0 <= i < 64
        ensures t[i] == Permute(s, Ip())[i]
      {
        assert t[8 * (i / 8) + i % 8] == s[From(i / 8, i % 8)];
        assert 8 * (i / 8) + i % 8 == i;
      }
    }
  }

  lemma FromIs(r: nat, c: nat)
    requires r < 8 && c < 8
    ensures From(r, c) == 8 * (7 - c) + if r < 4 then 2 * r + 1 else 2 * r - 8
  {
  }

  /** Every place is the goal of one output bit. */
  lemma EveryPlace(r: nat, c: nat) returns (box: nat, j: nat)
    requires r < 8 && c < 4
    ensures box < 8 && j < 4 && Goes(box, j) == 4 * r + c + 1
  {
    var source := PRow(r)[c] - 1;
    box, j := source / 4, source % 4;
    if r == 0 {} else if r == 1 {} else if r == 2 {} else if r == 3 {}
    else if r == 4 {} else if r == 5 {} else if r == 6 {} else { assert r == 7; }
  }

  lemma NextIs(l: Bits, r: Bits, subkey: Bits, next: Bits)
    requires |l| == 32 && |r| == 32 && |subkey| == 48
    ensures IsNext(l, r, subkey, next) <==> next == Xor(l, F(r, subkey))
  {
    hide F, Goes, Entry, NibbleBit;
    forall box, j | 0 <= box < 8 && 0 <= j < 4
      ensures 1 <= Goes(box, j) <= 32 && F(r, subkey)[Goes(box, j) - 1] == NibbleBit(Entry(r, subkey, box), j)
    {
      RoundBit(r, subkey, box, j);
    }
    if IsNext(l, r, subkey, next) {
      forall i | 0 <= i < 32
        ensures next[i] == Xor(l, F(r, subkey))[i]
      {
        var box, j := EveryPlace(i / 4, i % 4);
        assert 4 * (i / 4) + i % 4 == i;
      }
    }
  }

  /** The halves after each round. */
  lemma {:induction false} RoundsCompute(keys: seq<Bits>, l0: Bits, r0: Bits) returns (l: seq<Bits>, r: seq<Bits>)
    requires |l0| == 32 && |r0| == 32 && forall k :: 0 <= k < |keys| ==> |keys[k]| == 48
    ensures |l| == |keys| + 1 && |r| == |keys| + 1 && (forall i :: 0 <= i <= |keys| ==> |l[i]| == 32 && |r[i]| == 32)
    ensures l[0] == l0 && r[0] == r0
    ensures forall i :: 0 <= i < |keys| ==> l[i + 1] == r[i] && IsNext(l[i], r[i], keys[i], r[i + 1])
    decreases |keys|
  {
    hide F, Xor, IsNext;
    if keys == [] {
      l, r := [l0], [r0];
    } else {
      var next := Xor(l0, F(r0, keys[0]));
      NextIs(l0, r0, keys[0], next);
      var lt, rt := RoundsCompute(keys[1..], r0, next);
      l, r := [l0] + lt, [r0] + rt;
      forall i | 0 <= i < |keys|
        ensures l[i + 1] == r[i] && IsNext(l[i], r[i], keys[i], r[i + 1])
      {
        if i > 0 {
          assert keys[i] == keys[1..][i - 1] && l[i] == lt[i - 1] && r[i] == rt[i - 1] && l[i + 1] == lt[i] && r[i + 1] == rt[i];
        }
      }
    }
  }

  /** The cipher yields what the computation of the standard ends in, and nothing else. */
  lemma CryptIff(block: Bits, keys: seq<Bits>, out: Bits)
    requires |block| == 64 && |out| == 64 && forall k :: 0 <= k < |keys| ==> |keys[k]| == 48
    ensures Crypt(block, keys) == out <==> exists l, r :: IsComputation(block, keys, l, r, out)
  {
    hide F, Xor, IsNext, IsPermuted, Permute, Ip, Fp, Rounds;
    var permuted := Permute(block, Ip());
    if l, r :| IsComputation(block, keys, l, r, out) {
      LastHalves(keys, l, r);
      PermutedIs(block, l[0] + r[0]);
      assert permuted[..32] == l[0] && permuted[32..] == r[0];
      PermutedIs(out, r[|keys|] + l[|keys|]);
      OuterInverse(out);
    }
    if Crypt(block, keys) == out {
      var l, r := RoundsCompute(keys, permuted[..32], permuted[32..]);
      assert l[0] + r[0] == permuted;
      PermutedIs(block, l[0] + r[0]);
      var s := Rounds(keys, permuted[..32], permuted[32..]);
      OuterInverse(s.1 + s.0);
      LastHalves(keys, l, r);
      PermutedIs(out, r[|keys|] + l[|keys|]);
      assert IsComputation(block, keys, l, r, out);
    }
  }

  lemma {:induction false} LastHalves(keys: seq<Bits>, l: seq<Bits>, r: seq<Bits>)
    requires |l| == |keys| + 1 && |r| == |keys| + 1 && (forall i :: 0 <= i <= |keys| ==> |l[i]| == 32 && |r[i]| == 32)
    requires forall k :: 0 <= k < |keys| ==> |keys[k]| == 48
    requires forall i :: 0 <= i < |keys| ==> l[i + 1] == r[i] && IsNext(l[i], r[i], keys[i], r[i + 1])
    ensures Rounds(keys, l[0], r[0]) == (l[|keys|], r[|keys|])
    decreases |keys|
  {
    hide F, Xor, IsNext;
    if keys != [] {
      NextIs(l[0], r[0], keys[0], r[1]);
      LastHalves(keys[1..], l[1..], r[1..]);
    }
  }
}
