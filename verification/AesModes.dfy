/** The ECB, CBC and CTR entry points of AES with the built-in backend. */
module AesModes {
  import opened CryptoTypes
  import opened BlockModes
  import Aes
  import opened AesBlock
  import opened AesKeys
  import opened Sequences

  /** The block cipher under `key`. */
  function Cipher(key: Bytes, b: Bytes): (r: Bytes)
    requires KeyValid(key) && |b| == 16
    ensures |r| == 16
  {
    Aes.Encrypt(RoundKeys(key), RoundCount(|key|), b)
  }

  function InvCipher(key: Bytes, b: Bytes): (r: Bytes)
    requires KeyValid(key) && |b| == 16
    ensures |r| == 16
  {
    Aes.Decrypt(RoundKeys(key), RoundCount(|key|), b)
  }

  ghost function CipherOf(key: Bytes, encrypting: bool): (f: Bytes --> Bytes)
    requires KeyValid(key)
    ensures IsBlockFunction(f, 16)
  {
    if encrypting then (b: Bytes) requires |b| == 16 => Cipher(key, b)
    else (b: Bytes) requires |b| == 16 => InvCipher(key, b)
  }

  /** Each direction undoes the other, for all three key sizes. */
  lemma CipherUndone(key: Bytes)
    requires KeyValid(key)
    ensures Undoes(CipherOf(key, false), CipherOf(key, true), 16)
    ensures Undoes(CipherOf(key, true), CipherOf(key, false), 16)
  {
    hide Aes.Encrypt, Aes.Decrypt, RoundKeys;
    forall b: Bytes | |b| == 16
      ensures InvCipher(key, Cipher(key, b)) == b && Cipher(key, InvCipher(key, b)) == b
    {
      Aes.DecryptEncrypt(RoundKeys(key), RoundCount(|key|), b);
      Aes.EncryptDecrypt(RoundKeys(key), RoundCount(|key|), b);
    }
  }

  // ------------------------------------------------------------------------------- ECB

  ghost function EcbResult(key: Bytes, input: Bytes, encrypting: bool): CryptoResult {
    if !KeyValid(key) || |input| % 16 != 0 then InvalidArgument
    else
      WholeBlocksLength(input);
      Ok(Ecb(CipherOf(key, encrypting), 16, input))
  }

  method CryptBlock(keys: Bytes, key: Bytes, encrypting: bool, input: Bytes, out: array<bv8>)
    requires KeyValid(key) && keys == RoundKeys(key) && |input| == 16 && out.Length == 16
    modifies out
    ensures out[..] == CipherOf(key, encrypting)(input)
  {
    if encrypting {
      EncryptBlock(keys, RoundCount(|key|), input, out);
    } else {
      DecryptBlock(keys, RoundCount(|key|), input, out);
    }
  }

  method CryptEcb(key: Bytes, input: Bytes, encrypting: bool) returns (r: CryptoResult)
    ensures r == EcbResult(key, input, encrypting)
  {
    hide CipherOf, WholeBlocks, RoundKeys, Ecb;
    if !KeyValid(key) || |input| % 16 != 0 {
      return InvalidArgument;
    }
    WholeBlocksLength(input);
    var keys := KeyExpansion(key);
    var output: Bytes := [];
    var block := new bv8[16];
    var offset := 0;
    ghost var f := CipherOf(key, encrypting);
    while offset < |input|
      invariant 0 <= offset <= |input| && fresh(block)
      invariant WholeBlocks(input[offset..], 16)
      invariant output + Ecb(f, 16, input[offset..]) == Ecb(f, 16, input)
    {
      ghost var done := output;
      EcbStep(f, 16, input[offset..]);
      assert input[offset..][16..] == input[offset + 16..];
      assert input[offset..][..16] == input[offset..offset + 16];
      CryptBlock(keys, key, encrypting, input[offset..offset + 16], block);
      output := output + block[..];
      Regroup(done, block[..], Ecb(f, 16, input[offset + 16..]));
      offset := offset + 16;
    }
    EcbEmpty(f, 16);
    assert input[offset..] == [];
    r := Ok(output);
  }

  /** Decryption returns every accepted plaintext, encryption every accepted ciphertext. */
  lemma EcbUndone(key: Bytes, input: Bytes, encrypting: bool)
    ensures EcbResult(key, input, encrypting).InvalidArgument? <==> !KeyValid(key) || |input| % 16 != 0
    ensures EcbResult(key, input, encrypting).Ok? ==>
              EcbResult(key, EcbResult(key, input, encrypting).value, !encrypting) == Ok(input)
  {
    hide CipherOf, Ecb, WholeBlocks, Undoes;
    if KeyValid(key) && |input| % 16 == 0 {
      WholeBlocksLength(input);
      CipherUndone(key);
      EcbRoundTrip(CipherOf(key, encrypting), CipherOf(key, !encrypting), 16, input);
    }
  }

  // ------------------------------------------------------------------------------- CBC

  ghost function CbcResult(key: Bytes, iv: Bytes, input: Bytes, encrypting: bool): CryptoResult {
    if !KeyValid(key) || |iv| != 16 || |input| % 16 != 0 then InvalidArgument
    else
      WholeBlocksLength(input);
      if encrypting then Ok(CbcEncrypt(CipherOf(key, true), 16, iv, input))
      else Ok(CbcDecrypt(CipherOf(key, false), 16, iv, input))
  }

  method XorBlock(a: Bytes, b: Bytes, out: array<bv8>)
    requires |a| == 16 && |b| == 16 && out.Length == 16
    modifies out
    ensures out[..] == Xor(a, b)
  {
    var i := 0;
    while i < 16
      invariant 0 <= i <= 16
      invariant forall k :: 0 <= k < i ==> out[k] == a[k] ^ b[k]
    {
      out[i] := a[i] ^ b[i];
      i := i + 1;
    }
  }

  method CryptCbc(key: Bytes, iv: Bytes, input: Bytes, encrypting: bool) returns (r: CryptoResult)
    ensures r == CbcResult(key, iv, input, encrypting)
  {
    if !KeyValid(key) || |iv| != 16 || |input| % 16 != 0 {
      return InvalidArgument;
    }
    WholeBlocksLength(input);
    var keys := KeyExpansion(key);
    var output;
    if encrypting {
      output := EncryptChain(keys, key, iv, input);
    } else {
      output := DecryptChain(keys, key, iv, input);
    }
    r := Ok(output);
  }

  method EncryptChain(keys: Bytes, key: Bytes, iv: Bytes, input: Bytes) returns (output: Bytes)
    requires KeyValid(key) && keys == RoundKeys(key) && |iv| == 16 && WholeBlocks(input, 16)
    ensures output == CbcEncrypt(CipherOf(key, true), 16, iv, input)
  {
    hide CipherOf, RoundKeys, Xor, CbcEncrypt, WholeBlocks;
    var feedback := Copy(iv);
    var block := new bv8[16];
    output := [];
    var offset := 0;
    ghost var f := CipherOf(key, true);
    while offset < |input|
      invariant 0 <= offset <= |input| && fresh(block) && fresh(feedback) && feedback != block && feedback.Length == 16
      invariant WholeBlocks(input[offset..], 16)
      invariant output + CbcEncrypt(f, 16, feedback[..], input[offset..]) == CbcEncrypt(f, 16, iv, input)
    {
      ghost var done := output;
      CbcEncryptStep(f, 16, feedback[..], input[offset..]);
      assert input[offset..][16..] == input[offset + 16..];
      assert input[offset..][..16] == input[offset..offset + 16];
      XorBlock(input[offset..offset + 16], feedback[..], block);
      CryptBlock(keys, key, true, block[..], feedback);
      output := output + feedback[..];
      Regroup(done, feedback[..], CbcEncrypt(f, 16, feedback[..], input[offset + 16..]));
      offset := offset + 16;
    }
    assert input[offset..] == [];
    CbcEmpty(f, 16, feedback[..]);
  }

  method DecryptChain(keys: Bytes, key: Bytes, iv: Bytes, input: Bytes) returns (output: Bytes)
    requires KeyValid(key) && keys == RoundKeys(key) && |iv| == 16 && WholeBlocks(input, 16)
    ensures output == CbcDecrypt(CipherOf(key, false), 16, iv, input)
  {
    hide CipherOf, RoundKeys, Xor, CbcDecrypt, WholeBlocks;
    var feedback := Copy(iv);
    var block := new bv8[16];
    output := [];
    var offset := 0;
    ghost var g := CipherOf(key, false);
    while offset < |input|
      invariant 0 <= offset <= |input| && fresh(block) && fresh(feedback) && feedback != block && feedback.Length == 16
      invariant WholeBlocks(input[offset..], 16)
      invariant output + CbcDecrypt(g, 16, feedback[..], input[offset..]) == CbcDecrypt(g, 16, iv, input)
    {
      ghost var done := output;
      CbcDecryptStep(g, 16, feedback[..], input[offset..]);
      assert input[offset..][16..] == input[offset + 16..];
      assert input[offset..][..16] == input[offset..offset + 16];
      CryptBlock(keys, key, false, input[offset..offset + 16], block);
      XorBlock(block[..], feedback[..], block);
      output := output + block[..];
      feedback := Copy(input[offset..offset + 16]);
      Regroup(done, block[..], CbcDecrypt(g, 16, feedback[..], input[offset + 16..]));
      offset := offset + 16;
    }
    assert input[offset..] == [];
    CbcEmpty(g, 16, feedback[..]);
  }

  lemma CbcUndone(key: Bytes, iv: Bytes, input: Bytes)
    ensures CbcResult(key, iv, input, true).InvalidArgument? <==> !KeyValid(key) || |iv| != 16 || |input| % 16 != 0
    ensures CbcResult(key, iv, input, true).Ok? ==>
              CbcResult(key, iv, CbcResult(key, iv, input, true).value, false) == Ok(input)
    ensures CbcResult(key, iv, input, false).Ok? ==>
              CbcResult(key, iv, CbcResult(key, iv, input, false).value, true) == Ok(input)
  {
    hide CipherOf, CbcEncrypt, CbcDecrypt, WholeBlocks, Undoes;
    if KeyValid(key) && |iv| == 16 && |input| % 16 == 0 {
      WholeBlocksLength(input);
      CipherUndone(key);
      CbcRoundTrip(CipherOf(key, true), CipherOf(key, false), 16, iv, input);
      CbcReverseTrip(CipherOf(key, true), CipherOf(key, false), 16, iv, input);
    }
  }

  // ------------------------------------------------------------------------------- CTR

  method IncrementCounter(counter: array<bv8>)
    requires counter.Length == 16
    modifies counter
    ensures counter[..] == Increment(old(counter[..]))
  {
    hide Increment;
    ghost var before := counter[..];
    assert before[..16] == before && counter[16..] == [];
    var i := 16;
    while i > 0
      invariant 0 <= i <= 16
      invariant counter[..i] == before[..i]
      invariant Increment(before) == Increment(before[..i]) + counter[i..]
    {
      ghost var last, rest := counter[i - 1], counter[i..];
      assert before[..i] == before[..i - 1] + [last];
      IncrementStep(before[..i - 1], last, rest);
      counter[i - 1] := counter[i - 1] + 1;
      assert counter[i - 1..] == [last + 1] + rest;
      assert counter[..i - 1] == before[..i - 1];
      if counter[i - 1] != 0 {
        assert counter[..] == counter[..i - 1] + counter[i - 1..];
        return;
      }
      i := i - 1;
    }
    IncrementNone();
    assert before[..0] == [] && counter[0..] == counter[..];
  }

  lemma IncrementStep(init: Bytes, last: bv8, rest: Bytes)
    ensures last + 1 != 0 ==> Increment(init + [last]) + rest == init + ([last + 1] + rest)
    ensures last + 1 == 0 ==> Increment(init + [last]) + rest == Increment(init) + ([last + 1] + rest)
  {
    hide Increment;
    IncrementLast(init + [last]);
    assert (init + [last])[..|init|] == init;
    Wraps(last);
  }

  lemma Wraps(x: bv8)
    ensures x + 1 == 0 <==> x == 0xff
  {
  }

  ghost function CtrResult(key: Bytes, counter: Bytes, input: Bytes): CryptoResult {
    if !KeyValid(key) || |counter| != 16 then InvalidArgument
    else Ok(Ctr(CipherOf(key, true), counter, input))
  }

  /** Counter mode is its own inverse, for input of any length. */
  lemma CtrUndone(key: Bytes, counter: Bytes, input: Bytes)
    ensures CtrResult(key, counter, input).InvalidArgument? <==> !KeyValid(key) || |counter| != 16
    ensures CtrResult(key, counter, input).Ok? ==>
              CtrResult(key, counter, CtrResult(key, counter, input).value) == Ok(input)
  {
    hide CipherOf, Ctr;
    if KeyValid(key) && |counter| == 16 {
      CtrTwice(CipherOf(key, true), counter, input);
    }
  }

  method CryptCtr(key: Bytes, counterBlock: Bytes, input: Bytes) returns (r: CryptoResult)
    ensures r == CtrResult(key, counterBlock, input)
  {
    if !KeyValid(key) || |counterBlock| != 16 {
      return InvalidArgument;
    }
    var keys := KeyExpansion(key);
    var output := MaskStream(keys, key, counterBlock, input);
    r := Ok(output);
  }

  method MaskStream(keys: Bytes, key: Bytes, counterBlock: Bytes, input: Bytes) returns (output: Bytes)
    requires KeyValid(key) && keys == RoundKeys(key) && |counterBlock| == 16
    ensures output == Ctr(CipherOf(key, true), counterBlock, input)
  {
    hide RoundKeys, Increment, Xor, Ctr, CipherOf;
    var counter := Copy(counterBlock);
    var stream := new bv8[16];
    output := [];
    var offset := 0;
    ghost var f := CipherOf(key, true);
    while offset < |input|
      invariant 0 <= offset <= |input| && fresh(counter) && fresh(stream) && counter != stream && counter.Length == 16
      invariant output + Ctr(f, counter[..], input[offset..]) == Ctr(f, counterBlock, input)
    {
      ghost var done, current := output, counter[..];
      CryptBlock(keys, key, true, counter[..], stream);
      var remaining := |input| - offset;
      var take := if remaining < 16 then remaining else 16;
      var masked := Masked(input[offset..offset + take], stream[..]);
      CtrStep(f, current, input[offset..], take);
      assert input[offset..][..take] == input[offset..offset + take];
      assert input[offset..][take..] == input[offset + take..];
      output := output + masked;
      offset := offset + take;
      IncrementCounter(counter);
      Regroup(done, masked, Ctr(f, counter[..], input[offset..]));
    }
    assert input[offset..] == [];
    CtrEmpty(f, counter[..]);
  }

  method Masked(input: Bytes, stream: Bytes) returns (output: Bytes)
    requires |input| <= |stream|
    ensures output == Xor(input, stream)
  {
    output := [];
    var i := 0;
    while i < |input|
      invariant 0 <= i <= |input| && |output| == i
      invariant forall k :: 0 <= k < i ==> output[k] == input[k] ^ stream[k]
    {
      output := output + [input[i] ^ stream[i]];
      i := i + 1;
    }
  }
}
