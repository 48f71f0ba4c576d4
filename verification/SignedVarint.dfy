/** Signed numbers, as their machine words, through zigzag and varint: what was put is read back. */
module SignedVarint {
  import opened Octets
  import Varint
  import Zigzag

  lemma PutThenRead(w: Varint.Width, u: nat, rest: seq<byte>)
    requires u < Varint.Bound(w)
    ensures Varint.Read(w, Varint.Encode(u) + rest) == Varint.Ok(u, |Varint.Encode(u)|)
  {
    hide Varint.Read, Varint.Encode;
    var put := Varint.Encode(u);
    assert (put + rest)[..|put|] == put;
    Varint.ReadIff(w, put + rest, u, |put|);
  }

  /** A word as the number it stands for. */
  function Number32(v: bv32): (u: nat)
    ensures u < Varint.TWO32
  {
    v as nat
  }

  function Word32(u: nat): bv32
    requires u < Varint.TWO32
  {
    u as bv32
  }

  lemma WordOfNumber32(v: bv32)
    ensures Word32(Number32(v)) == v
  {
  }

  /** A signed 32-bit number put by zigzag and varint is read back, whatever follows it. */
  lemma SignedReadBack32(v: bv32, rest: seq<byte>)
    ensures var u := Number32(Zigzag.Encode32(v));
            && Varint.Read(Varint.W32, Varint.Encode(u) + rest) == Varint.Ok(u, |Varint.Encode(u)|)
            && Zigzag.Decode32(Word32(u)) == v
  {
    hide Zigzag.Encode32, Zigzag.Decode32, Varint.Read, Varint.Encode, Number32, Word32;
    PutThenRead(Varint.W32, Number32(Zigzag.Encode32(v)), rest);
    WordOfNumber32(Zigzag.Encode32(v));
    Zigzag.DecodeEncode32(v);
  }

  /** A word as the number it stands for. */
  function Number64(v: bv64): (u: nat)
    ensures u < Varint.TWO64
  {
    v as nat
  }

  function Word64(u: nat): bv64
    requires u < Varint.TWO64
  {
    u as bv64
  }

  lemma WordOfNumber64(v: bv64)
    ensures Word64(Number64(v)) == v
  {
  }

  /** A signed 64-bit number put by zigzag and varint is read back, whatever follows it. */
  lemma SignedReadBack64(v: bv64, rest: seq<byte>)
    ensures var u := Number64(Zigzag.Encode64(v));
            && Varint.Read(Varint.W64, Varint.Encode(u) + rest) == Varint.Ok(u, |Varint.Encode(u)|)
            && Zigzag.Decode64(Word64(u)) == v
  {
    hide Zigzag.Encode64, Zigzag.Decode64, Varint.Read, Varint.Encode, Number64, Word64;
    PutThenRead(Varint.W64, Number64(Zigzag.Encode64(v)), rest);
    WordOfNumber64(Zigzag.Encode64(v));
    Zigzag.DecodeEncode64(v);
  }
}
