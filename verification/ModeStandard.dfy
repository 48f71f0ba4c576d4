/**
  The entry points of AES and DES against the standards: each block of their output is
  tied to a computation of FIPS 197 or FIPS 46-3 under a key schedule of the same standard.
 */
module ModeStandard {
  import opened CryptoTypes
  import opened BlockModes
  import Aes
  import AesKeys
  import AesModes
  import AesStandard
  import Des
  import DesModes
  import DesStandard

  // --------------------------------------------------------------------------------- AES

  ghost predicate AesComputes(key: Bytes, nk: nat, nr: nat, plain: Bytes, cipher: Bytes)
    requires (nk == 4 && nr == 10) || (nk == 6 && nr == 12) || (nk == 8 && nr == 14)
    requires |plain| == 16
  {
    exists keys, states :: IsAesRun(key, nk, nr, plain, keys, states, cipher)
  }

  /** A key schedule and a computation with it. */
  predicate IsAesRun(key: Bytes, nk: nat, nr: nat, plain: Bytes, keys: Bytes, states: seq<Bytes>, cipher: Bytes)
    requires (nk == 4 && nr == 10) || (nk == 6 && nr == 12) || (nk == 8 && nr == 14)
    requires |plain| == 16
  {
    AesStandard.IsSchedule(key, keys, nk, nr) && AesStandard.IsComputation(keys, nr, plain, states, cipher)
  }

  /** `cipher` is the encryption of `plain` under `key` as the standard defines it. */
  ghost predicate AesEnciphers(key: Bytes, plain: Bytes, cipher: Bytes) {
    && |plain| == 16
    && if |key| == 16 then AesComputes(key, 4, 10, plain, cipher)
       else if |key| == 24 then AesComputes(key, 6, 12, plain, cipher)
       else |key| == 32 && AesComputes(key, 8, 14, plain, cipher)
  }

  lemma AesComputesIff(key: Bytes, nk: nat, nr: nat, plain: Bytes, cipher: Bytes)
    requires (nk == 4 && nr == 10) || (nk == 6 && nr == 12) || (nk == 8 && nr == 14)
    requires |key| == 4 * nk && |plain| == 16
    ensures AesComputes(key, nk, nr, plain, cipher) <==> cipher == AesModes.Cipher(key, plain)
  {
    hide AesStandard.IsComputation, AesStandard.Recurs, AesKeys.RoundKeys, Aes.Encrypt;
    var own := AesKeys.RoundKeys(key);
    AesStandard.RoundKeysAreSchedule(key);
    AesStandard.EncryptIff(own, nr, plain, cipher);
    if keys, states :| IsAesRun(key, nk, nr, plain, keys, states, cipher) {
      OneSchedule(key, keys, own, nk, nr);
    }
    if states :| AesStandard.IsComputation(own, nr, plain, states, cipher) {
      assert IsAesRun(key, nk, nr, plain, own, states, cipher);
    }
  }

  lemma OneSchedule(key: Bytes, keys: Bytes, own: Bytes, nk: nat, nr: nat)
    requires (nk == 4 && nr == 10) || (nk == 6 && nr == 12) || (nk == 8 && nr == 14)
    requires AesStandard.IsSchedule(key, keys, nk, nr) && AesStandard.IsSchedule(key, own, nk, nr)
    ensures keys == own
  {
    var m := 16 * (nr + 1);
    AesStandard.SameSchedule(key, keys, own, nk, nr, m);
    assert keys[..m] == keys && own[..m] == own;
  }

  /** The block cipher is the standard's, for all three key sizes. */
  lemma AesCipherIff(key: Bytes, plain: Bytes, cipher: Bytes)
    requires AesKeys.KeyValid(key) && |plain| == 16
    ensures AesEnciphers(key, plain, cipher) <==> cipher == AesModes.Cipher(key, plain)
  {
    hide AesComputes, AesModes.Cipher;
    if |key| == 16 {
      AesComputesIff(key, 4, 10, plain, cipher);
    } else if |key| == 24 {
      AesComputesIff(key, 6, 12, plain, cipher);
    } else {
      AesComputesIff(key, 8, 14, plain, cipher);
    }
  }

  /** Deciphering a block gives what is enciphered to it. */
  lemma AesInverseIs(key: Bytes, b: Bytes)
    requires AesKeys.KeyValid(key) && |b| == 16
    ensures AesEnciphers(key, b, AesModes.CipherOf(key, true)(b))
    ensures |AesModes.CipherOf(key, false)(b)| == 16 && AesEnciphers(key, AesModes.CipherOf(key, false)(b), b)
  {
    hide AesEnciphers, AesModes.Cipher, AesModes.InvCipher;
    AesCipherIff(key, b, AesModes.Cipher(key, b));
    AesModes.CipherUndone(key);
    UndoneAt(AesModes.CipherOf(key, true), AesModes.CipherOf(key, false), 16, b);
    var p := AesModes.CipherOf(key, false)(b);
    AesCipherIff(key, p, b);
  }

  /** ECB: block `j` of the ciphertext is the encryption of block `j` of the plaintext, in either direction. */
  lemma AesEcbBlocks(key: Bytes, input: Bytes, encrypting: bool, j: nat)
    requires AesKeys.KeyValid(key) && |input| % 16 == 0 && 16 * j + 16 <= |input|
    ensures var r := AesModes.EcbResult(key, input, encrypting);
            && r.Ok? && |r.value| == |input|
            && var (p, c) := if encrypting then (input, r.value) else (r.value, input);
               AesEnciphers(key, Block(p, 16, j), Block(c, 16, j))
  {
    hide AesEnciphers, AesModes.CipherOf, Ecb, WholeBlocks, Block;
    WholeBlocksLength(input);
    EcbAt(AesModes.CipherOf(key, encrypting), 16, input, j);
    AesInverseIs(key, Block(input, 16, j));
  }

  /** CBC: what is enciphered to block `j` is the plaintext block added to the ciphertext block before it. */
  lemma AesCbcBlocks(key: Bytes, iv: Bytes, input: Bytes, encrypting: bool, j: nat)
    requires AesKeys.KeyValid(key) && |iv| == 16 && |input| % 16 == 0 && 16 * j + 16 <= |input|
    ensures var r := AesModes.CbcResult(key, iv, input, encrypting);
            && r.Ok? && |r.value| == |input|
            && var (p, c) := if encrypting then (input, r.value) else (r.value, input);
               AesEnciphers(key, Xor(Block(p, 16, j), if j == 0 then iv else Block(c, 16, j - 1)), Block(c, 16, j))
  {
    hide AesEnciphers, AesModes.CipherOf, CbcEncrypt, CbcDecrypt, WholeBlocks, Block, Xor;
    WholeBlocksLength(input);
    if encrypting {
      CbcEncryptAt(AesModes.CipherOf(key, true), 16, iv, input, j);
      var c := CbcEncrypt(AesModes.CipherOf(key, true), 16, iv, input);
      AesInverseIs(key, Xor(Block(input, 16, j), if j == 0 then iv else Block(c, 16, j - 1)));
    } else {
      CbcDecryptAt(AesModes.CipherOf(key, false), 16, iv, input, j);
      AesInverseIs(key, Block(input, 16, j));
      XorTwice(AesModes.CipherOf(key, false)(Block(input, 16, j)), if j == 0 then iv else Block(input, 16, j - 1));
    }
  }

  /** CTR: byte `16 j + k` is masked with byte `k` of the encryption of the counter advanced `j` times. */
  lemma AesCtrBytes(key: Bytes, counter: Bytes, input: Bytes, j: nat, k: nat) returns (mask: Bytes)
    requires AesKeys.KeyValid(key) && |counter| == 16 && k < 16 && 16 * j + k < |input|
    ensures |mask| == 16 && AesEnciphers(key, Advance(counter, j), mask)
    ensures var r := AesModes.CtrResult(key, counter, input);
            r.Ok? && |r.value| == |input| && r.value[16 * j + k] == input[16 * j + k] ^ mask[k]
  {
    hide AesEnciphers, AesModes.CipherOf, Ctr;
    var f := AesModes.CipherOf(key, true);
    CtrAt(f, counter, input, j, k);
    AesInverseIs(key, Advance(counter, j));
    mask := f(Advance(counter, j));
  }

  // --------------------------------------------------------------------------------- DES

  /** The subkeys are the bits of the key the standard selects for each round. */
  predicate AreSubkeys(key: Des.Bits, keys: seq<Des.Bits>)
    requires |key| == 64
  {
    && |keys| == 16 && (forall i :: 0 <= i < 16 ==> |keys[i]| == 48)
    && forall i, box, k :: 0 <= i < 16 && 0 <= box < 8 && 0 <= k < 6 ==> IsSubkeyBit(key, keys[i], i, box, k)
  }

  predicate IsSubkeyBit(key: Des.Bits, subkey: Des.Bits, round: nat, box: nat, k: nat)
    requires |key| == 64 && |subkey| == 48 && round < 16 && box < 8 && k < 6
  {
    var p := DesStandard.Selected(box, k);
    subkey[6 * box + k] ==
    if p < 28 then key[DesStandard.KeyBit(false, (p + DesStandard.Turned(round)) % 28)]
    else key[DesStandard.KeyBit(true, (p - 28 + DesStandard.Turned(round)) % 28)]
  }

  /** `cipher` is the encryption of `plain` under `key` as the standard defines it. */
  ghost predicate DesEnciphers(key: Bytes, plain: Bytes, cipher: Bytes) {
    && |key| == 8 && |plain| == 8 && |cipher| == 8
    && exists keys, l, r :: IsDesRun(DesModes.Load(key), DesModes.Load(plain), keys, l, r, DesModes.Load(cipher))
  }

  /** The subkeys of a key and a computation with them. */
  predicate IsDesRun(key: Des.Bits, plain: Des.Bits, keys: seq<Des.Bits>, l: seq<Des.Bits>, r: seq<Des.Bits>, cipher: Des.Bits)
    requires |key| == 64 && |plain| == 64
  {
    AreSubkeys(key, keys) && DesStandard.IsComputation(plain, keys, l, r, cipher)
  }

  lemma SubkeysAre(key: Des.Bits)
    requires |key| == 64
    ensures AreSubkeys(key, Des.Subkeys(key, 16))
  {
    hide Des.Subkey, IsSubkeyBit;
    var keys := Des.Subkeys(key, 16);
    forall i, box, k | 0 <= i < 16 && 0 <= box < 8 && 0 <= k < 6
      ensures IsSubkeyBit(key, keys[i], i, box, k)
    {
      OneSubkeyBit(key, i, box, k);
    }
  }

  lemma OneSubkeyBit(key: Des.Bits, i: nat, box: nat, k: nat)
    requires |key| == 64 && i < 16 && box < 8 && k < 6
    ensures IsSubkeyBit(key, Des.Subkey(key, i), i, box, k)
  {
    hide Des.Subkey, DesStandard.Selected, DesStandard.KeyBit, DesStandard.Turned;
    DesStandard.SubkeyBit(key, i, box, k);
  }

  lemma OnlySubkeys(key: Des.Bits, a: seq<Des.Bits>, b: seq<Des.Bits>)
    requires |key| == 64 && AreSubkeys(key, a) && AreSubkeys(key, b)
    ensures a == b
  {
    hide DesStandard.Selected, DesStandard.KeyBit, DesStandard.Turned;
    forall i | 0 <= i < 16
      ensures a[i] == b[i]
    {
      forall p | 0 <= p < 48
        ensures a[i][p] == b[i][p]
      {
        assert 6 * (p / 6) + p % 6 == p;
        assert IsSubkeyBit(key, a[i], i, p / 6, p % 6) && IsSubkeyBit(key, b[i], i, p / 6, p % 6);
      }
    }
  }

  /** The block cipher is the standard's. */
  lemma DesCipherIff(key: Bytes, plain: Bytes, cipher: Bytes)
    requires |key| == 8 && |plain| == 8 && |cipher| == 8
    ensures DesEnciphers(key, plain, cipher) <==> cipher == DesModes.Block(key, false, plain)
  {
    hide DesModes.Load, DesModes.Store, Des.Crypt, Des.Subkeys, IsSubkeyBit, DesStandard.IsComputation;
    var own := Des.Subkeys(DesModes.Load(key), 16);
    SubkeysAre(DesModes.Load(key));
    DesModes.StoreLoad(cipher);
    DesModes.LoadStore(Des.Crypt(DesModes.Load(plain), own));
    SubkeySizes(DesModes.Load(key), own);
    DesStandard.CryptIff(DesModes.Load(plain), own, DesModes.Load(cipher));
    if keys, l, r :| IsDesRun(DesModes.Load(key), DesModes.Load(plain), keys, l, r, DesModes.Load(cipher)) {
      OnlySubkeys(DesModes.Load(key), keys, own);
    }
    if l, r :| DesStandard.IsComputation(DesModes.Load(plain), own, l, r, DesModes.Load(cipher)) {
      assert IsDesRun(DesModes.Load(key), DesModes.Load(plain), own, l, r, DesModes.Load(cipher));
    }
  }

  lemma SubkeySizes(key: Des.Bits, keys: seq<Des.Bits>)
    requires |key| == 64 && AreSubkeys(key, keys)
    ensures |keys| == 16 && forall i :: 0 <= i < 16 ==> |keys[i]| == 48
  {
  }

  lemma DesInverseIs(key: Bytes, b: Bytes)
    requires |key| == 8 && |b| == 8
    ensures DesEnciphers(key, b, DesModes.BlockOf(key, false)(b))
    ensures DesEnciphers(key, DesModes.BlockOf(key, true)(b), b)
  {
    hide DesEnciphers, DesModes.Block;
    DesCipherIff(key, b, DesModes.Block(key, false, b));
    DesModes.BlockUndone(key, true);
    UndoneAt(DesModes.BlockOf(key, false), DesModes.BlockOf(key, true), 8, b);
    DesCipherIff(key, DesModes.Block(key, true, b), b);
  }

  /** ECB with DES. */
  lemma DesEcbBlocks(key: Bytes, input: Bytes, reverse: bool, j: nat)
    requires |key| == 8 && |input| % 8 == 0 && 8 * j + 8 <= |input|
    ensures var r := DesModes.EcbResult(key, input, reverse);
            && r.Ok? && |r.value| == |input|
            && var (p, c) := if reverse then (r.value, input) else (input, r.value);
               DesEnciphers(key, Block(p, 8, j), Block(c, 8, j))
  {
    hide DesEnciphers, DesModes.BlockOf, Ecb, WholeBlocks, Block;
    WholeHalfBlocksLength(input);
    EcbAt(DesModes.BlockOf(key, reverse), 8, input, j);
    DesInverseIs(key, Block(input, 8, j));
  }

  /** CBC with DES. */
  lemma DesCbcBlocks(key: Bytes, iv: Bytes, input: Bytes, encrypting: bool, j: nat)
    requires |key| == 8 && |iv| == 8 && |input| % 8 == 0 && 8 * j + 8 <= |input|
    ensures var r := DesModes.CbcResult(key, iv, input, encrypting);
            && r.Ok? && |r.value| == |input|
            && var (p, c) := if encrypting then (input, r.value) else (r.value, input);
               DesEnciphers(key, Xor(Block(p, 8, j), if j == 0 then iv else Block(c, 8, j - 1)), Block(c, 8, j))
  {
    hide DesEnciphers, DesModes.BlockOf, CbcEncrypt, CbcDecrypt, WholeBlocks, Block, Xor;
    WholeHalfBlocksLength(input);
    if encrypting {
      CbcEncryptAt(DesModes.BlockOf(key, false), 8, iv, input, j);
      var c := CbcEncrypt(DesModes.BlockOf(key, false), 8, iv, input);
      DesInverseIs(key, Xor(Block(input, 8, j), if j == 0 then iv else Block(c, 8, j - 1)));
    } else {
      CbcDecryptAt(DesModes.BlockOf(key, true), 8, iv, input, j);
      DesInverseIs(key, Block(input, 8, j));
      XorTwice(DesModes.BlockOf(key, true)(Block(input, 8, j)), if j == 0 then iv else Block(input, 8, j - 1));
    }
  }
}
