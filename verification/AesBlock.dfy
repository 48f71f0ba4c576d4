/** The AES round steps and rounds, in place on a sixteen-byte array. */
module AesBlock {
  import opened CryptoTypes
  import opened BlockModes
  import opened AesTables
  import opened AesField
  import opened Aes

  // -------------------------------------------------------------- round steps in place

  method SubBytesInPlace(state: array<bv8>)
    requires state.Length == 16
    modifies state
    ensures state[..] == SubBytes(old(state[..]))
  {
    hide SBox;
    var i := 0;
    while i < 16
      invariant 0 <= i <= 16
      invariant forall k :: 0 <= k < i ==> state[k] == SBox(old(state[k]))
      invariant forall k :: i <= k < 16 ==> state[k] == old(state[k])
    {
      state[i] := SBox(state[i]);
      i := i + 1;
    }
  }

  method InvSubBytesInPlace(state: array<bv8>)
    requires state.Length == 16
    modifies state
    ensures state[..] == InvSubBytes(old(state[..]))
  {
    hide InvSBox;
    var i := 0;
    while i < 16
      invariant 0 <= i <= 16
      invariant forall k :: 0 <= k < i ==> state[k] == InvSBox(old(state[k]))
      invariant forall k :: i <= k < 16 ==> state[k] == old(state[k])
    {
      state[i] := InvSBox(state[i]);
      i := i + 1;
    }
  }

  /** Each of four bytes takes the next one's place. */
  method CycleFour(state: array<bv8>, p: nat, q: nat, r: nat, t: nat)
    requires state.Length == 16 && p < 16 && q < 16 && r < 16 && t < 16
    requires p != q && p != r && p != t && q != r && q != t && r != t
    modifies state
    ensures var s := old(state[..]); state[..] == s[p := s[q]][q := s[r]][r := s[t]][t := s[p]]
  {
    var temp := state[p];
    state[p] := state[q];
    state[q] := state[r];
    state[r] := state[t];
    state[t] := temp;
  }

  method Swap(state: array<bv8>, p: nat, q: nat)
    requires state.Length == 16 && p < 16 && q < 16 && p != q
    modifies state
    ensures var s := old(state[..]); state[..] == s[p := s[q]][q := s[p]]
  {
    var temp := state[p];
    state[p] := state[q];
    state[q] := temp;
  }

  method ShiftRowsInPlace(state: array<bv8>)
    requires state.Length == 16
    modifies state
    ensures state[..] == ShiftRows(old(state[..]))
  {
    CycleFour(state, 1, 5, 9, 13);
    Swap(state, 2, 10);
    Swap(state, 6, 14);
    CycleFour(state, 15, 11, 7, 3);
  }

  method InvShiftRowsInPlace(state: array<bv8>)
    requires state.Length == 16
    modifies state
    ensures state[..] == InvShiftRows(old(state[..]))
  {
    CycleFour(state, 13, 9, 5, 1);
    Swap(state, 2, 10);
    Swap(state, 6, 14);
    CycleFour(state, 3, 7, 11, 15);
  }

  method MixOneColumn(a0: bv8, a1: bv8, a2: bv8, a3: bv8) returns (b0: bv8, b1: bv8, b2: bv8, b3: bv8)
    ensures [b0, b1, b2, b3] == MixColumn(a0, a1, a2, a3)
  {
    hide GMul, Plus, Sum;
    var d0 := GMulLoop(a0, 2); var d1 := GMulLoop(a1, 2);
    var d2 := GMulLoop(a2, 2); var d3 := GMulLoop(a3, 2);
    var t0 := GMulLoop(a0, 3); var t1 := GMulLoop(a1, 3);
    var t2 := GMulLoop(a2, 3); var t3 := GMulLoop(a3, 3);
    b0 := Sum(d0, t1, a2, a3);
    b1 := Sum(a0, d1, t2, a3);
    b2 := Sum(a0, a1, d2, t3);
    b3 := Sum(t0, a1, a2, d3);
    SumRotate(d1, t2, a3, a0);
    SumRotate(d2, t3, a0, a1);
    SumRotate(a1, d2, t3, a0);
    SumRotate(t0, a1, a2, d3);
  }

  method InvMixOneColumn(a0: bv8, a1: bv8, a2: bv8, a3: bv8) returns (b0: bv8, b1: bv8, b2: bv8, b3: bv8)
    ensures [b0, b1, b2, b3] == InvMixColumn(a0, a1, a2, a3)
  {
    hide GMul, Plus, Sum;
    var e0 := GMulLoop(a0, 14); var e1 := GMulLoop(a1, 14);
    var e2 := GMulLoop(a2, 14); var e3 := GMulLoop(a3, 14);
    var b00 := GMulLoop(a0, 11); var b01 := GMulLoop(a1, 11);
    var b02 := GMulLoop(a2, 11); var b03 := GMulLoop(a3, 11);
    var c0 := GMulLoop(a0, 13); var c1 := GMulLoop(a1, 13);
    var c2 := GMulLoop(a2, 13); var c3 := GMulLoop(a3, 13);
    var n0 := GMulLoop(a0, 9); var n1 := GMulLoop(a1, 9);
    var n2 := GMulLoop(a2, 9); var n3 := GMulLoop(a3, 9);
    b0 := Sum(e0, b01, c2, n3);
    b1 := Sum(n0, e1, b02, c3);
    b2 := Sum(c0, n1, e2, b03);
    b3 := Sum(b00, c1, n2, e3);
    SumRotate(e1, b02, c3, n0);
    SumRotate(e2, b03, c0, n1);
    SumRotate(n1, e2, b03, c0);
    SumRotate(b00, c1, n2, e3);
  }

  lemma FourColumns(a: Bytes, b: Bytes, c: Bytes, d: Bytes)
    requires |a| == 4 && |b| == 4 && |c| == 4 && |d| == 4
    ensures var s := a + b + c + d; s[0..4] == a && s[4..8] == b && s[8..12] == c && s[12..16] == d
  {
  }

  /** Column `c` of a mixed state is the mixed column. */
  lemma MixColumnsAt(s: Bytes, c: nat)
    requires |s| == 16 && c < 4
    ensures MixColumns(s)[4 * c..4 * c + 4] == MixColumn(s[4 * c], s[4 * c + 1], s[4 * c + 2], s[4 * c + 3])
  {
    hide MixColumn;
    FourColumns(MixColumn(s[0], s[1], s[2], s[3]), MixColumn(s[4], s[5], s[6], s[7]),
                MixColumn(s[8], s[9], s[10], s[11]), MixColumn(s[12], s[13], s[14], s[15]));
    if c == 0 {
    } else if c == 1 {
    } else if c == 2 {
    } else {
      assert 4 * c == 12;
    }
  }

  lemma InvMixColumnsAt(s: Bytes, c: nat)
    requires |s| == 16 && c < 4
    ensures InvMixColumns(s)[4 * c..4 * c + 4] == InvMixColumn(s[4 * c], s[4 * c + 1], s[4 * c + 2], s[4 * c + 3])
  {
    hide InvMixColumn;
    FourColumns(InvMixColumn(s[0], s[1], s[2], s[3]), InvMixColumn(s[4], s[5], s[6], s[7]),
                InvMixColumn(s[8], s[9], s[10], s[11]), InvMixColumn(s[12], s[13], s[14], s[15]));
    if c == 0 {
    } else if c == 1 {
    } else if c == 2 {
    } else {
      assert 4 * c == 12;
    }
  }

  method MixColumnsInPlace(state: array<bv8>)
    requires state.Length == 16
    modifies state
    ensures state[..] == MixColumns(old(state[..]))
  {
    hide MixColumn, MixColumns;
    ghost var before := state[..];
    ghost var goal := MixColumns(before);
    var c := 0;
    while c < 4
      invariant 0 <= c <= 4
      invariant state[..4 * c] == goal[..4 * c]
      invariant state[4 * c..] == before[4 * c..]
    {
      assert before[4 * c..][0] == before[4 * c] && before[4 * c..][1] == before[4 * c + 1]
          && before[4 * c..][2] == before[4 * c + 2] && before[4 * c..][3] == before[4 * c + 3];
      var b0, b1, b2, b3 := MixOneColumn(state[4 * c], state[4 * c + 1], state[4 * c + 2], state[4 * c + 3]);
      MixColumnsAt(before, c);
      StoreColumn(state, c, b0, b1, b2, b3);
      assert goal[..4 * c + 4] == goal[..4 * c] + goal[4 * c..4 * c + 4];
      c := c + 1;
    }
    assert state[..] == goal;
  }

  method StoreColumn(state: array<bv8>, c: nat, b0: bv8, b1: bv8, b2: bv8, b3: bv8)
    requires state.Length == 16 && c < 4
    modifies state
    ensures state[..4 * c + 4] == old(state[..4 * c]) + [b0, b1, b2, b3]
    ensures state[4 * c + 4..] == old(state[4 * c + 4..])
  {
    state[4 * c], state[4 * c + 1], state[4 * c + 2], state[4 * c + 3] := b0, b1, b2, b3;
  }

  method InvMixColumnsInPlace(state: array<bv8>)
    requires state.Length == 16
    modifies state
    ensures state[..] == InvMixColumns(old(state[..]))
  {
    hide InvMixColumn, InvMixColumns;
    ghost var before := state[..];
    ghost var goal := InvMixColumns(before);
    var c := 0;
    while c < 4
      invariant 0 <= c <= 4
      invariant state[..4 * c] == goal[..4 * c]
      invariant state[4 * c..] == before[4 * c..]
    {
      assert before[4 * c..][0] == before[4 * c] && before[4 * c..][1] == before[4 * c + 1]
          && before[4 * c..][2] == before[4 * c + 2] && before[4 * c..][3] == before[4 * c + 3];
      var b0, b1, b2, b3 := InvMixOneColumn(state[4 * c], state[4 * c + 1], state[4 * c + 2], state[4 * c + 3]);
      InvMixColumnsAt(before, c);
      StoreColumn(state, c, b0, b1, b2, b3);
      assert goal[..4 * c + 4] == goal[..4 * c] + goal[4 * c..4 * c + 4];
      c := c + 1;
    }
    assert state[..] == goal;
  }

  method AddRoundKeyInPlace(state: array<bv8>, keys: Bytes, round: nat)
    requires state.Length == 16 && 16 * round + 16 <= |keys|
    modifies state
    ensures state[..] == AddRoundKey(old(state[..]), keys, round)
  {
    var i := 0;
    while i < 16
      invariant 0 <= i <= 16
      invariant forall k :: 0 <= k < i ==> state[k] == old(state[k]) ^ keys[16 * round + k]
      invariant forall k :: i <= k < 16 ==> state[k] == old(state[k])
    {
      state[i] := state[i] ^ keys[16 * round + i];
      i := i + 1;
    }
  }

  // ------------------------------------------------------------------------ the cipher

  method EncryptBlock(keys: Bytes, nr: nat, input: Bytes, out: array<bv8>)
    requires nr >= 1 && 16 * nr + 16 <= |keys| && |input| == 16 && out.Length == 16
    modifies out
    ensures out[..] == Encrypt(keys, nr, input)
  {
    hide SubBytes, ShiftRows, MixColumns, AddRoundKey;
    var state := Copy(input);
    AddRoundKeyInPlace(state, keys, 0);
    var round := 1;
    while round < nr
      invariant 1 <= round <= nr && fresh(state) && state.Length == 16
      invariant state[..] == Rounds(keys, round - 1, input)
      modifies state
    {
      SubBytesInPlace(state);
      ShiftRowsInPlace(state);
      MixColumnsInPlace(state);
      AddRoundKeyInPlace(state, keys, round);
      round := round + 1;
    }
    SubBytesInPlace(state);
    ShiftRowsInPlace(state);
    AddRoundKeyInPlace(state, keys, nr);
    CopyTo(state, out);
  }

  method DecryptBlock(keys: Bytes, nr: nat, input: Bytes, out: array<bv8>)
    requires nr >= 1 && 16 * nr + 16 <= |keys| && |input| == 16 && out.Length == 16
    modifies out
    ensures out[..] == Decrypt(keys, nr, input)
  {
    hide InvSubBytes, InvShiftRows, InvMixColumns, AddRoundKey;
    var state := Copy(input);
    AddRoundKeyInPlace(state, keys, nr);
    var round := nr - 1;
    ghost var start := state[..];
    while round >= 1
      invariant 0 <= round < nr && fresh(state) && state.Length == 16
      invariant InvRounds(keys, round, state[..]) == InvRounds(keys, nr - 1, start)
      modifies state
    {
      InvShiftRowsInPlace(state);
      InvSubBytesInPlace(state);
      AddRoundKeyInPlace(state, keys, round);
      InvMixColumnsInPlace(state);
      round := round - 1;
    }
    InvShiftRowsInPlace(state);
    InvSubBytesInPlace(state);
    AddRoundKeyInPlace(state, keys, 0);
    CopyTo(state, out);
  }

  method Copy(input: Bytes) returns (state: array<bv8>)
    requires |input| == 16
    ensures fresh(state) && state.Length == 16 && state[..] == input
  {
    state := new bv8[16];
    var i := 0;
    while i < 16
      invariant 0 <= i <= 16 && state[..i] == input[..i]
    {
      state[i] := input[i];
      i := i + 1;
    }
  }

  method CopyTo(state: array<bv8>, out: array<bv8>)
    requires state.Length == 16 && out.Length == 16 && state != out
    modifies out
    ensures out[..] == state[..]
  {
    var i := 0;
    while i < 16
      invariant 0 <= i <= 16 && out[..i] == state[..i]
    {
      out[i] := state[i];
      i := i + 1;
    }
  }
}
