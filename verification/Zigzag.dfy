/** The map from signed to unsigned numbers that keeps small ones small, on their bits. */
module Zigzag {

  /** The arithmetic shift that spreads the sign bit. */
  function Sign32(v: bv32): bv32 {
    if v & 0x8000_0000 != 0 then 0xFFFF_FFFF else 0
  }

  function Encode32(v: bv32): bv32 {
    (v << 1) ^ Sign32(v)
  }

  function Minus32(u: bv32): bv32 {
    0 - (u & 1)
  }

  function Decode32(u: bv32): bv32 {
    (u >> 1) ^ Minus32(u)
  }

  lemma LowBit32(u: bv32)
    ensures u & 1 == 0 || u & 1 == 1
  {
  }

  lemma MinusIs32(u: bv32)
    ensures Minus32(u) == if u & 1 == 0 then 0 else 0xFFFF_FFFF
  {
    LowBit32(u);
  }

  lemma SignIs32(v: bv32)
    ensures Sign32(v) == if v & 0x8000_0000 == 0 then 0 else 0xFFFF_FFFF
  {
  }

  lemma XorZero32(v: bv32)
    ensures v ^ 0 == v
  {
  }

  lemma FlipAll32(v: bv32)
    ensures (v << 1) ^ 0xFFFF_FFFF == (!v << 1) | 1
  {
  }

  lemma Positive32(v: bv32)
    requires v & 0x8000_0000 == 0
    ensures (v << 1) >> 1 == v && (v << 1) & 1 == 0
  {
  }

  lemma Negative32(v: bv32)
    requires v & 0x8000_0000 != 0
    ensures (((v << 1) ^ 0xFFFF_FFFF) >> 1) ^ 0xFFFF_FFFF == v && ((v << 1) ^ 0xFFFF_FFFF) & 1 == 1
  {
  }

  /** Decoding undoes encoding. */
  lemma DecodeEncode32(v: bv32)
    ensures Decode32(Encode32(v)) == v
  {
    hide Minus32, Sign32;
    MinusIs32(Encode32(v));
    SignIs32(v);
    if v & 0x8000_0000 == 0 {
      Positive32(v);
      XorZero32(v << 1);
      XorZero32(v);
    } else {
      Negative32(v);
    }
  }

  /** Encoding undoes decoding: the map is a bijection. */
  lemma EncodeDecode32(u: bv32)
    ensures Encode32(Decode32(u)) == u
  {
  }

  /** A number from zero up goes to its double, a negative one to the odd number beside it. */
  lemma Interleaves32(v: bv32)
    ensures Encode32(v) == if v & 0x8000_0000 == 0 then v << 1 else (!v << 1) | 1
  {
    hide Sign32;
    SignIs32(v);
    if v & 0x8000_0000 == 0 {
      XorZero32(v << 1);
    } else {
      FlipAll32(v);
    }
  }

  /** The arithmetic shift that spreads the sign bit. */
  function Sign64(v: bv64): bv64 {
    if v & 0x8000_0000_0000_0000 != 0 then 0xFFFF_FFFF_FFFF_FFFF else 0
  }

  function Encode64(v: bv64): bv64 {
    (v << 1) ^ Sign64(v)
  }

  function Minus64(u: bv64): bv64 {
    0 - (u & 1)
  }

  function Decode64(u: bv64): bv64 {
    (u >> 1) ^ Minus64(u)
  }

  lemma LowBit64(u: bv64)
    ensures u & 1 == 0 || u & 1 == 1
  {
  }

  lemma MinusIs64(u: bv64)
    ensures Minus64(u) == if u & 1 == 0 then 0 else 0xFFFF_FFFF_FFFF_FFFF
  {
    LowBit64(u);
  }

  lemma SignIs64(v: bv64)
    ensures Sign64(v) == if v & 0x8000_0000_0000_0000 == 0 then 0 else 0xFFFF_FFFF_FFFF_FFFF
  {
  }

  lemma XorZero64(v: bv64)
    ensures v ^ 0 == v
  {
  }

  lemma FlipAll64(v: bv64)
    ensures (v << 1) ^ 0xFFFF_FFFF_FFFF_FFFF == (!v << 1) | 1
  {
  }

  lemma Positive64(v: bv64)
    requires v & 0x8000_0000_0000_0000 == 0
    ensures (v << 1) >> 1 == v && (v << 1) & 1 == 0
  {
  }

  lemma Negative64(v: bv64)
    requires v & 0x8000_0000_0000_0000 != 0
    ensures (((v << 1) ^ 0xFFFF_FFFF_FFFF_FFFF) >> 1) ^ 0xFFFF_FFFF_FFFF_FFFF == v && ((v << 1) ^ 0xFFFF_FFFF_FFFF_FFFF) & 1 == 1
  {
  }

  /** Decoding undoes encoding. */
  lemma DecodeEncode64(v: bv64)
    ensures Decode64(Encode64(v)) == v
  {
    hide Minus64, Sign64;
    MinusIs64(Encode64(v));
    SignIs64(v);
    if v & 0x8000_0000_0000_0000 == 0 {
      Positive64(v);
      XorZero64(v << 1);
      XorZero64(v);
    } else {
      Negative64(v);
    }
  }

  /** Encoding undoes decoding: the map is a bijection. */
  lemma EncodeDecode64(u: bv64)
    ensures Encode64(Decode64(u)) == u
  {
  }

  /** A number from zero up goes to its double, a negative one to the odd number beside it. */
  lemma Interleaves64(v: bv64)
    ensures Encode64(v) == if v & 0x8000_0000_0000_0000 == 0 then v << 1 else (!v << 1) | 1
  {
    hide Sign64;
    SignIs64(v);
    if v & 0x8000_0000_0000_0000 == 0 {
      XorZero64(v << 1);
    } else {
      FlipAll64(v);
    }
  }
}
