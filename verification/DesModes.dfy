/** The entry points on bytes, and PKCS#5 padding. */
module DesModes {
  import opened Des
  import BlockModes
  import opened CryptoTypes
  import opened Sequences

  // ------------------------------------------------------------------------ bytes as bits

  function ByteBits(b: bv8): (r: Bits)
    ensures |r| == 8
  {
    [b & 128 != 0, b & 64 != 0, b & 32 != 0, b & 16 != 0, b & 8 != 0, b & 4 != 0, b & 2 != 0, b & 1 != 0]
  }

  function BitsByte(s: Bits): bv8
    requires |s| == 8
  {
    Or(Or(Or(At(s[0], 128), At(s[1], 64)), Or(At(s[2], 32), At(s[3], 16))),
       Or(Or(At(s[4], 8), At(s[5], 4)), Or(At(s[6], 2), At(s[7], 1))))
  }

  function Or(a: bv8, b: bv8): bv8 {
    a | b
  }

  function At(bit: bool, place: bv8): bv8 {
    if bit then place else 0
  }

  lemma ByteRoundTrip(b: bv8)
    ensures BitsByte(ByteBits(b)) == b
  {
  }

  lemma BitsRoundTrip(s: Bits)
    requires |s| == 8
    ensures ByteBits(BitsByte(s)) == s
  {
  }

  /** The bits of a byte string, in order. */
  function Load(data: Bytes): (r: Bits)
    ensures |r| == 8 * |data|
  {
    if data == [] then [] else ByteBits(data[0]) + Load(data[1..])
  }

  function Store(bits: Bits): (r: Bytes)
    requires |bits| % 8 == 0
    ensures 8 * |r| == |bits|
  {
    if bits == [] then [] else [BitsByte(bits[..8])] + Store(bits[8..])
  }

  lemma {:induction false} StoreLoad(data: Bytes)
    ensures Store(Load(data)) == data
  {
    hide ByteBits, BitsByte;
    if data != [] {
      var bits := Load(data);
      ByteRoundTrip(data[0]);
      StoreLoad(data[1..]);
      assert bits[..8] == ByteBits(data[0]) && bits[8..] == Load(data[1..]);
    }
  }

  lemma {:induction false} LoadStore(bits: Bits)
    requires |bits| % 8 == 0
    ensures Load(Store(bits)) == bits
    decreases |bits|
  {
    hide ByteBits, BitsByte;
    if bits != [] {
      BitsRoundTrip(bits[..8]);
      LoadStore(bits[8..]);
      assert bits == bits[..8] + bits[8..];
    }
  }

  lemma {:induction false} LoadAt(data: Bytes, i: nat, k: nat)
    requires i < |data| && k < 8
    ensures Load(data)[8 * i + k] == ByteBits(data[i])[k]
  {
    hide ByteBits;
    if i > 0 {
      LoadAt(data[1..], i - 1, k);
    }
  }

  /** Bit `k` of byte `i` stands for 2^(7 - k). */
  lemma LoadBit(data: Bytes, i: nat, k: nat, weight: bv8)
    requires i < |data| && k < 8 && weight == if k == 0 then 128 else if k == 1 then 64 else if k == 2 then 32
                                               else if k == 3 then 16 else if k == 4 then 8 else if k == 5 then 4
                                               else if k == 6 then 2 else 1
    ensures Load(data)[8 * i + k] <==> data[i] & weight != 0
  {
    hide Load;
    LoadAt(data, i, k);
  }

  method LoadBlock(data: Bytes) returns (value: Bits)
    ensures value == Load(data)
  {
    hide ByteBits;
    value := [];
    var i := 0;
    while i < |data|
      invariant 0 <= i <= |data| && value + Load(data[i..]) == Load(data)
    {
      assert data[i..][1..] == data[i + 1..];
      value := value + ByteBits(data[i]);
      i := i + 1;
    }
  }

  method StoreBlock(bits: Bits) returns (data: Bytes)
    requires |bits| % 8 == 0
    ensures data == Store(bits)
  {
    hide BitsByte;
    data := [];
    var i := 0;
    while i < |bits|
      invariant 0 <= i <= |bits| && i % 8 == 0 && data + Store(bits[i..]) == Store(bits)
    {
      assert bits[i..][8..] == bits[i + 8..];
      assert bits[i..][..8] == bits[i..i + 8];
      data := data + [BitsByte(bits[i..i + 8])];
      i := i + 8;
    }
  }

  // --------------------------------------------------------------------------- the cipher

  /** The cipher on one block of eight bytes. */
  function Block(key: Bytes, reverse: bool, b: Bytes): (r: Bytes)
    requires |key| == 8 && |b| == 8
    ensures |r| == 8
  {
    Store(Crypt(Load(b), Schedule(Load(key), reverse)))
  }

  ghost function BlockOf(key: Bytes, reverse: bool): (f: Bytes --> Bytes)
    requires |key| == 8
    ensures BlockModes.IsBlockFunction(f, 8)
  {
    (b: Bytes) requires |b| == 8 => Block(key, reverse, b)
  }

  lemma BlockUndone(key: Bytes, reverse: bool)
    requires |key| == 8
    ensures BlockModes.Undoes(BlockOf(key, !reverse), BlockOf(key, reverse), 8)
  {
    hide Load, Store, Crypt, Schedule;
    forall b: Bytes | |b| == 8
      ensures Block(key, !reverse, Block(key, reverse, b)) == b
    {
      LoadStore(Crypt(Load(b), Schedule(Load(key), reverse)));
      BlockInverse(Load(key), Load(b), reverse);
      StoreLoad(b);
    }
  }

  method CryptBytes(key: Bytes, reverse: bool, subkeys: array<Bits>, b: Bytes) returns (r: Bytes)
    requires |key| == 8 && |b| == 8 && subkeys[..] == Schedule(Load(key), reverse)
    ensures |r| == 8 && r == BlockOf(key, reverse)(b)
  {
    hide Load, Store, Crypt, Schedule;
    assert forall i :: 0 <= i < subkeys.Length ==> subkeys[i] == subkeys[..][i];
    var value := LoadBlock(b);
    var bits := CryptBlock(value, subkeys);
    r := StoreBlock(bits);
  }

  // ---------------------------------------------------------------------------------- ECB

  ghost function EcbResult(key: Bytes, input: Bytes, reverse: bool): CryptoResult {
    if |key| != 8 || |input| % 8 != 0 then InvalidArgument
    else
      BlockModes.WholeHalfBlocksLength(input);
      Ok(BlockModes.Ecb(BlockOf(key, reverse), 8, input))
  }

  method CryptEcb(key: Bytes, input: Bytes, reverse: bool) returns (r: CryptoResult)
    ensures r == EcbResult(key, input, reverse)
  {
    hide Load, Schedule, BlockOf, BlockModes.WholeBlocks, BlockModes.Ecb;
    if |key| != 8 || |input| % 8 != 0 {
      return InvalidArgument;
    }
    BlockModes.WholeHalfBlocksLength(input);
    var subkeys := new Bits[16](_ => []);
    var value := LoadBlock(key);
    DeriveSubkeys(value, reverse, subkeys);
    ghost var f := BlockOf(key, reverse);
    var output: Bytes := [];
    var offset := 0;
    while offset < |input|
      invariant 0 <= offset <= |input| && subkeys[..] == Schedule(Load(key), reverse)
      invariant BlockModes.WholeBlocks(input[offset..], 8)
      invariant output + BlockModes.Ecb(f, 8, input[offset..]) == BlockModes.Ecb(f, 8, input)
    {
      ghost var done := output;
      BlockModes.EcbStep(f, 8, input[offset..]);
      assert input[offset..][8..] == input[offset + 8..];
      assert input[offset..][..8] == input[offset..offset + 8];
      var block := CryptBytes(key, reverse, subkeys, input[offset..offset + 8]);
      output := output + block;
      Regroup(done, block, BlockModes.Ecb(f, 8, input[offset + 8..]));
      offset := offset + 8;
    }
    BlockModes.EcbEmpty(f, 8);
    assert input[offset..] == [];
    r := Ok(output);
  }

  /** Either direction undoes the other on every accepted input. */
  lemma EcbUndone(key: Bytes, input: Bytes, reverse: bool)
    ensures EcbResult(key, input, reverse).InvalidArgument? <==> |key| != 8 || |input| % 8 != 0
    ensures EcbResult(key, input, reverse).Ok? ==>
              EcbResult(key, EcbResult(key, input, reverse).value, !reverse) == Ok(input)
  {
    hide BlockOf, BlockModes.Ecb, BlockModes.WholeBlocks, BlockModes.Undoes;
    if |key| == 8 && |input| % 8 == 0 {
      BlockModes.WholeHalfBlocksLength(input);
      BlockUndone(key, reverse);
      BlockModes.EcbRoundTrip(BlockOf(key, reverse), BlockOf(key, !reverse), 8, input);
    }
  }

  // ---------------------------------------------------------------------------------- CBC

  ghost function CbcResult(key: Bytes, iv: Bytes, input: Bytes, encrypting: bool): CryptoResult {
    if |key| != 8 || |iv| != 8 || |input| % 8 != 0 then InvalidArgument
    else
      BlockModes.WholeHalfBlocksLength(input);
      if encrypting then Ok(BlockModes.CbcEncrypt(BlockOf(key, false), 8, iv, input))
      else Ok(BlockModes.CbcDecrypt(BlockOf(key, true), 8, iv, input))
  }

  method XorBytes(a: Bytes, b: Bytes) returns (r: Bytes)
    requires |a| == |b|
    ensures r == BlockModes.Xor(a, b)
  {
    r := [];
    var i := 0;
    while i < |a|
      invariant 0 <= i <= |a| && |r| == i
      invariant forall k :: 0 <= k < i ==> r[k] == a[k] ^ b[k]
    {
      r := r + [a[i] ^ b[i]];
      i := i + 1;
    }
  }

  method CryptCbc(key: Bytes, iv: Bytes, input: Bytes, encrypting: bool) returns (r: CryptoResult)
    ensures r == CbcResult(key, iv, input, encrypting)
  {
    hide Load, Schedule;
    if |key| != 8 || |iv| != 8 || |input| % 8 != 0 {
      return InvalidArgument;
    }
    BlockModes.WholeHalfBlocksLength(input);
    var subkeys := new Bits[16](_ => []);
    var value := LoadBlock(key);
    DeriveSubkeys(value, !encrypting, subkeys);
    var output;
    if encrypting {
      output := EncryptChain(key, subkeys, iv, input);
    } else {
      output := DecryptChain(key, subkeys, iv, input);
    }
    r := Ok(output);
  }

  method EncryptChain(key: Bytes, subkeys: array<Bits>, iv: Bytes, input: Bytes) returns (output: Bytes)
    requires |key| == 8 && |iv| == 8 && BlockModes.WholeBlocks(input, 8)
    requires subkeys[..] == Schedule(Load(key), false)
    ensures output == BlockModes.CbcEncrypt(BlockOf(key, false), 8, iv, input)
  {
    hide Load, Schedule, BlockOf, BlockModes.WholeBlocks, BlockModes.CbcEncrypt, BlockModes.Xor;
    ghost var f := BlockOf(key, false);
    var feedback := iv;
    output := [];
    var offset := 0;
    while offset < |input|
      invariant 0 <= offset <= |input| && |feedback| == 8
      invariant BlockModes.WholeBlocks(input[offset..], 8)
      invariant output + BlockModes.CbcEncrypt(f, 8, feedback, input[offset..]) == BlockModes.CbcEncrypt(f, 8, iv, input)
    {
      ghost var done := output;
      BlockModes.CbcEncryptStep(f, 8, feedback, input[offset..]);
      assert input[offset..][8..] == input[offset + 8..];
      assert input[offset..][..8] == input[offset..offset + 8];
      var mixed := XorBytes(input[offset..offset + 8], feedback);
      feedback := CryptBytes(key, false, subkeys, mixed);
      output := output + feedback;
      Regroup(done, feedback, BlockModes.CbcEncrypt(f, 8, feedback, input[offset + 8..]));
      offset := offset + 8;
    }
    BlockModes.CbcEmpty(f, 8, feedback);
    assert input[offset..] == [];
  }

  method DecryptChain(key: Bytes, subkeys: array<Bits>, iv: Bytes, input: Bytes) returns (output: Bytes)
    requires |key| == 8 && |iv| == 8 && BlockModes.WholeBlocks(input, 8)
    requires subkeys[..] == Schedule(Load(key), true)
    ensures output == BlockModes.CbcDecrypt(BlockOf(key, true), 8, iv, input)
  {
    hide Load, Schedule, BlockOf, BlockModes.WholeBlocks, BlockModes.CbcDecrypt, BlockModes.Xor;
    ghost var g := BlockOf(key, true);
    var feedback := iv;
    output := [];
    var offset := 0;
    while offset < |input|
      invariant 0 <= offset <= |input| && |feedback| == 8
      invariant BlockModes.WholeBlocks(input[offset..], 8)
      invariant output + BlockModes.CbcDecrypt(g, 8, feedback, input[offset..]) == BlockModes.CbcDecrypt(g, 8, iv, input)
    {
      ghost var done := output;
      BlockModes.CbcDecryptStep(g, 8, feedback, input[offset..]);
      assert input[offset..][8..] == input[offset + 8..];
      assert input[offset..][..8] == input[offset..offset + 8];
      var plain := CryptBytes(key, true, subkeys, input[offset..offset + 8]);
      var block := XorBytes(plain, feedback);
      feedback := input[offset..offset + 8];
      output := output + block;
      Regroup(done, block, BlockModes.CbcDecrypt(g, 8, feedback, input[offset + 8..]));
      offset := offset + 8;
    }
    BlockModes.CbcEmpty(g, 8, feedback);
    assert input[offset..] == [];
  }

  lemma CbcUndone(key: Bytes, iv: Bytes, input: Bytes)
    ensures CbcResult(key, iv, input, true).InvalidArgument? <==> |key| != 8 || |iv| != 8 || |input| % 8 != 0
    ensures CbcResult(key, iv, input, true).Ok? ==>
              CbcResult(key, iv, CbcResult(key, iv, input, true).value, false) == Ok(input)
    ensures CbcResult(key, iv, input, false).Ok? ==>
              CbcResult(key, iv, CbcResult(key, iv, input, false).value, true) == Ok(input)
  {
    hide BlockOf, BlockModes.CbcEncrypt, BlockModes.CbcDecrypt, BlockModes.WholeBlocks, BlockModes.Undoes;
    if |key| == 8 && |iv| == 8 && |input| % 8 == 0 {
      BlockModes.WholeHalfBlocksLength(input);
      BlockUndone(key, false);
      BlockUndone(key, true);
      BlockModes.CbcRoundTrip(BlockOf(key, false), BlockOf(key, true), 8, iv, input);
      BlockModes.CbcReverseTrip(BlockOf(key, false), BlockOf(key, true), 8, iv, input);
    }
  }

  // ------------------------------------------------------------------------------ padding

  function PadByte(n: nat): bv8
    requires 1 <= n <= 8
  {
    if n == 1 then 1 else if n == 2 then 2 else if n == 3 then 3 else if n == 4 then 4
    else if n == 5 then 5 else if n == 6 then 6 else if n == 7 then 7 else 8
  }

  /** The pad length a byte stands for, if any. */
  function PadLength(b: bv8): (n: nat)
    ensures n <= 8 && (n > 0 ==> PadByte(n) == b)
  {
    if b == 1 then 1 else if b == 2 then 2 else if b == 3 then 3 else if b == 4 then 4
    else if b == 5 then 5 else if b == 6 then 6 else if b == 7 then 7 else if b == 8 then 8 else 0
  }

  /** From one to eight bytes, each the number of bytes added. */
  function Pad(plain: Bytes): (r: Bytes)
    ensures |r| % 8 == 0 && |plain| < |r| <= |plain| + 8 && plain <= r
  {
    var n := 8 - |plain| % 8;
    plain + seq(n, _ => PadByte(n))
  }

  method Pkcs5Pad(plain: Bytes) returns (r: Bytes)
    ensures r == Pad(plain)
  {
    hide PadByte;
    var n := 8 - |plain| % 8;
    r := plain;
    var i := 0;
    while i < n
      invariant 0 <= i <= n && r == plain + seq(i, _ => PadByte(n))
    {
      r := r + [PadByte(n)];
      i := i + 1;
    }
  }

  /** The padded string is `plain` with its padding: what `unpad` accepts, said outright. */
  method Pkcs5Unpad(padded: Bytes) returns (r: CryptoResult)
    ensures r.Ok? ==> padded == Pad(r.value)
    ensures r.InvalidArgument? ==> forall plain :: padded != Pad(plain)
  {
    hide PadByte;
    if |padded| == 0 || |padded| % 8 != 0 {
      return InvalidArgument;
    }
    var n := PadLength(padded[|padded| - 1]);
    if n == 0 {
      forall plain
        ensures padded != Pad(plain)
      {
        LastByte(plain);
      }
      return InvalidArgument;
    }
    var i := |padded| - n;
    while i < |padded|
      invariant |padded| - n <= i <= |padded|
      invariant forall k :: |padded| - n <= k < i ==> padded[k] == PadByte(n)
    {
      if padded[i] != PadByte(n) {
        forall plain
          ensures padded != Pad(plain)
        {
          LastByte(plain);
        }
        return InvalidArgument;
      }
      i := i + 1;
    }
    r := Ok(padded[..|padded| - n]);
    CutLength(|padded|, n);
    assert padded == r.value + seq(n, _ => PadByte(n));
  }

  lemma CutLength(total: nat, n: nat)
    requires total % 8 == 0 && 1 <= n <= 8 && n <= total
    ensures 8 - (total - n) % 8 == n
  {
  }

  /** Every padding byte names the pad length. */
  lemma LastByte(plain: Bytes)
    ensures var n, p := 8 - |plain| % 8, Pad(plain);
            PadLength(p[|p| - 1]) == n && forall k :: |p| - n <= k < |p| ==> p[k] == PadByte(n)
  {
    PadLengthOf(8 - |plain| % 8);
  }

  lemma PadLengthOf(n: nat)
    requires 1 <= n <= 8
    ensures PadLength(PadByte(n)) == n
  {
  }

  lemma PadInjective(a: Bytes, b: Bytes)
    requires Pad(a) == Pad(b)
    ensures a == b
  {
    hide PadByte, PadLength;
    LastByte(a);
    LastByte(b);
    assert |a| == |b|;
    assert a == Pad(a)[..|a|] && b == Pad(b)[..|b|];
  }

  /** Unpadding returns what was padded, and padding what was accepted for unpadding. */
  method PadThenUnpad(plain: Bytes) returns (padded: Bytes, r: CryptoResult)
    ensures padded == Pad(plain) && r == Ok(plain)
  {
    padded := Pkcs5Pad(plain);
    r := Pkcs5Unpad(padded);
    if r.Ok? {
      PadInjective(plain, r.value);
    }
  }
}
