/**
  The AES block cipher (sections 5.1 and 5.3 of FIPS 197): round steps on the sixteen
  bytes of the state in column order, the rounds, and what undoes them.
 */
module Aes {
  import opened CryptoTypes
  import opened BlockModes
  import opened AesTables
  import opened AesField

  // ----------------------------------------------------------------------- round steps

  function SubBytes(s: Bytes): (r: Bytes)
    requires |s| == 16
    ensures |r| == 16
  {
    seq(16, i requires 0 <= i < 16 => SBox(s[i]))
  }

  function InvSubBytes(s: Bytes): (r: Bytes)
    requires |s| == 16
    ensures |r| == 16
  {
    seq(16, i requires 0 <= i < 16 => InvSBox(s[i]))
  }

  /** Row `r` moves `r` places to the left. */
  function ShiftRows(s: Bytes): (r: Bytes)
    requires |s| == 16
    ensures |r| == 16
  {
    [s[0], s[5], s[10], s[15], s[4], s[9], s[14], s[3], s[8], s[13], s[2], s[7], s[12], s[1], s[6], s[11]]
  }

  /** Row `r` moves `r` places to the right. */
  function InvShiftRows(s: Bytes): (r: Bytes)
    requires |s| == 16
    ensures |r| == 16
  {
    [s[0], s[13], s[10], s[7], s[4], s[1], s[14], s[11], s[8], s[5], s[2], s[15], s[12], s[9], s[6], s[3]]
  }

  /** The state is stored by columns: row `r` of column `c` is byte `r + 4c`. */
  lemma ShiftRowsMoves(s: Bytes, r: nat, c: nat)
    requires |s| == 16 && r < 4 && c < 4
    ensures ShiftRows(s)[r + 4 * c] == s[r + 4 * ((c + r) % 4)]
    ensures InvShiftRows(s)[r + 4 * ((c + r) % 4)] == s[r + 4 * c]
  {
    var t, u := ShiftRows(s), InvShiftRows(s);
    var column := (c + r) % 4;
    if r == 0 {
      assert column == c;
    } else if r == 1 {
      assert column == if c < 3 then c + 1 else 0;
    } else if r == 2 {
      assert column == if c < 2 then c + 2 else c - 2;
    } else {
      assert column == if c < 1 then 3 else c - 1;
    }
  }

  function MixColumn(a: bv8, b: bv8, c: bv8, d: bv8): (r: Bytes)
    ensures |r| == 4
  {
    [Mix(a, b, c, d), Mix(b, c, d, a), Mix(c, d, a, b), Mix(d, a, b, c)]
  }

  function InvMixColumn(a: bv8, b: bv8, c: bv8, d: bv8): (r: Bytes)
    ensures |r| == 4
  {
    [InvMix(a, b, c, d), InvMix(b, c, d, a), InvMix(c, d, a, b), InvMix(d, a, b, c)]
  }

  function MixColumns(s: Bytes): (r: Bytes)
    requires |s| == 16
    ensures |r| == 16
  {
    MixColumn(s[0], s[1], s[2], s[3]) + MixColumn(s[4], s[5], s[6], s[7])
    + MixColumn(s[8], s[9], s[10], s[11]) + MixColumn(s[12], s[13], s[14], s[15])
  }

  function InvMixColumns(s: Bytes): (r: Bytes)
    requires |s| == 16
    ensures |r| == 16
  {
    InvMixColumn(s[0], s[1], s[2], s[3]) + InvMixColumn(s[4], s[5], s[6], s[7])
    + InvMixColumn(s[8], s[9], s[10], s[11]) + InvMixColumn(s[12], s[13], s[14], s[15])
  }

  function AddRoundKey(s: Bytes, keys: Bytes, round: nat): (r: Bytes)
    requires |s| == 16 && 16 * round + 16 <= |keys|
    ensures |r| == 16
  {
    Xor(s, keys[16 * round..16 * round + 16])
  }

  // ------------------------------------------------------------------ the steps undone

  lemma SubBytesInverse(s: Bytes)
    requires |s| == 16
    ensures InvSubBytes(SubBytes(s)) == s && SubBytes(InvSubBytes(s)) == s
  {
    hide SBox, InvSBox;
    forall i | 0 <= i < 16
      ensures InvSubBytes(SubBytes(s))[i] == s[i] && SubBytes(InvSubBytes(s))[i] == s[i]
    {
      InverseSBox(s[i]);
      SBoxInverse(s[i]);
    }
  }

  lemma ShiftRowsInverse(s: Bytes)
    requires |s| == 16
    ensures InvShiftRows(ShiftRows(s)) == s && ShiftRows(InvShiftRows(s)) == s
  {
  }

  lemma MixColumnInverse(a: bv8, b: bv8, c: bv8, d: bv8)
    ensures var m := MixColumn(a, b, c, d); InvMixColumn(m[0], m[1], m[2], m[3]) == [a, b, c, d]
    ensures var m := InvMixColumn(a, b, c, d); MixColumn(m[0], m[1], m[2], m[3]) == [a, b, c, d]
  {
    hide Mix, InvMix;
    InvMixMix(a, b, c, d); InvMixMix(b, c, d, a); InvMixMix(c, d, a, b); InvMixMix(d, a, b, c);
    MixInvMix(a, b, c, d); MixInvMix(b, c, d, a); MixInvMix(c, d, a, b); MixInvMix(d, a, b, c);
  }

  lemma MixColumnsInverse(s: Bytes)
    requires |s| == 16
    ensures InvMixColumns(MixColumns(s)) == s && MixColumns(InvMixColumns(s)) == s
  {
    hide MixColumn, InvMixColumn;
    MixColumnInverse(s[0], s[1], s[2], s[3]);
    MixColumnInverse(s[4], s[5], s[6], s[7]);
    MixColumnInverse(s[8], s[9], s[10], s[11]);
    MixColumnInverse(s[12], s[13], s[14], s[15]);
  }

  lemma AddRoundKeyInverse(s: Bytes, keys: Bytes, round: nat)
    requires |s| == 16 && 16 * round + 16 <= |keys|
    ensures AddRoundKey(AddRoundKey(s, keys, round), keys, round) == s
  {
    XorTwice(s, keys[16 * round..16 * round + 16]);
  }

  // ------------------------------------------------------------------------ the cipher

  /** The state after the initial key addition and `k` full rounds. */
  function Rounds(keys: Bytes, k: nat, s: Bytes): (r: Bytes)
    requires |s| == 16 && 16 * k + 16 <= |keys|
    ensures |r| == 16
  {
    if k == 0 then AddRoundKey(s, keys, 0)
    else AddRoundKey(MixColumns(ShiftRows(SubBytes(Rounds(keys, k - 1, s)))), keys, k)
  }

  function Encrypt(keys: Bytes, nr: nat, s: Bytes): (r: Bytes)
    requires |s| == 16 && nr >= 1 && 16 * nr + 16 <= |keys|
    ensures |r| == 16
  {
    AddRoundKey(ShiftRows(SubBytes(Rounds(keys, nr - 1, s))), keys, nr)
  }

  /** The inverse rounds `k`, `k - 1`, ..., 1. */
  function InvRounds(keys: Bytes, k: nat, s: Bytes): (r: Bytes)
    requires |s| == 16 && 16 * k + 16 <= |keys|
    ensures |r| == 16
  {
    if k == 0 then s
    else InvRounds(keys, k - 1, InvMixColumns(AddRoundKey(InvSubBytes(InvShiftRows(s)), keys, k)))
  }

  function Decrypt(keys: Bytes, nr: nat, s: Bytes): (r: Bytes)
    requires |s| == 16 && nr >= 1 && 16 * nr + 16 <= |keys|
    ensures |r| == 16
  {
    AddRoundKey(InvSubBytes(InvShiftRows(InvRounds(keys, nr - 1, AddRoundKey(s, keys, nr)))), keys, 0)
  }

  lemma SubShiftInverse(s: Bytes)
    requires |s| == 16
    ensures InvSubBytes(InvShiftRows(ShiftRows(SubBytes(s)))) == s
    ensures ShiftRows(SubBytes(InvSubBytes(InvShiftRows(s)))) == s
  {
    hide SubBytes, InvSubBytes, ShiftRows, InvShiftRows;
    ShiftRowsInverse(SubBytes(s));
    SubBytesInverse(s);
    SubBytesInverse(InvShiftRows(s));
    ShiftRowsInverse(s);
  }

  lemma {:induction false} RoundsInverse(keys: Bytes, k: nat, s: Bytes)
    requires |s| == 16 && 16 * k + 16 <= |keys|
    ensures InvRounds(keys, k, ShiftRows(SubBytes(Rounds(keys, k, s)))) == ShiftRows(SubBytes(AddRoundKey(s, keys, 0)))
  {
    hide SubBytes, InvSubBytes, ShiftRows, InvShiftRows, MixColumns, InvMixColumns, AddRoundKey;
    if k > 0 {
      var before := ShiftRows(SubBytes(Rounds(keys, k - 1, s)));
      SubShiftInverse(Rounds(keys, k, s));
      AddRoundKeyInverse(MixColumns(before), keys, k);
      MixColumnsInverse(before);
      RoundsInverse(keys, k - 1, s);
    }
  }

  /** Decryption undoes encryption, for every key schedule and every number of rounds. */
  lemma DecryptEncrypt(keys: Bytes, nr: nat, s: Bytes)
    requires |s| == 16 && nr >= 1 && 16 * nr + 16 <= |keys|
    ensures Decrypt(keys, nr, Encrypt(keys, nr, s)) == s
  {
    hide SubBytes, InvSubBytes, ShiftRows, InvShiftRows, AddRoundKey, Rounds, InvRounds;
    AddRoundKeyInverse(ShiftRows(SubBytes(Rounds(keys, nr - 1, s))), keys, nr);
    RoundsInverse(keys, nr - 1, s);
    SubShiftInverse(AddRoundKey(s, keys, 0));
    AddRoundKeyInverse(s, keys, 0);
  }

  /** The full rounds applied after the inverse rounds. */
  lemma {:induction false} InvRoundsInverse(keys: Bytes, k: nat, s: Bytes)
    requires |s| == 16 && 16 * k + 16 <= |keys|
    ensures var t := AddRoundKey(InvSubBytes(InvShiftRows(InvRounds(keys, k, s))), keys, 0);
            ShiftRows(SubBytes(Rounds(keys, k, t))) == s
  {
    hide SubBytes, InvSubBytes, ShiftRows, InvShiftRows, MixColumns, InvMixColumns, AddRoundKey;
    if k == 0 {
      AddRoundKeyInverse(InvSubBytes(InvShiftRows(s)), keys, 0);
      SubShiftInverse(s);
    } else {
      var mixed := AddRoundKey(InvSubBytes(InvShiftRows(s)), keys, k);
      InvRoundsInverse(keys, k - 1, InvMixColumns(mixed));
      MixColumnsInverse(mixed);
      AddRoundKeyInverse(InvSubBytes(InvShiftRows(s)), keys, k);
      SubShiftInverse(s);
    }
  }

  /** Encryption undoes decryption. */
  lemma EncryptDecrypt(keys: Bytes, nr: nat, s: Bytes)
    requires |s| == 16 && nr >= 1 && 16 * nr + 16 <= |keys|
    ensures Encrypt(keys, nr, Decrypt(keys, nr, s)) == s
  {
    hide SubBytes, InvSubBytes, ShiftRows, InvShiftRows, AddRoundKey, Rounds, InvRounds;
    InvRoundsInverse(keys, nr - 1, AddRoundKey(s, keys, nr));
    AddRoundKeyInverse(s, keys, nr);
  }
}
