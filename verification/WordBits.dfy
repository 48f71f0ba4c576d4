/** Bytes in 32-bit words. */
module WordBits {

  function Up24(v: bv32): bv32 {
    v << 24
  }

  function Up16(v: bv32): bv32 {
    v << 16
  }

  function Up8(v: bv32): bv32 {
    v << 8
  }

  function Join(a: bv32, b: bv32, c: bv32, d: bv32): bv32 {
    Up24(a) | Up16(b) | Up8(c) | d
  }

  function Wide(x: bv8): bv32 {
    x as bv32
  }

  function Shift(v: bv32, k: bv6): bv32
    requires k <= 32
  {
    v >> k
  }

  function Low(v: bv32): bv8 {
    (v & 0xff) as bv8
  }

  function Rotate(v: bv32): bv32 {
    (v << 8) | (v >> 24)
  }

  function Exclusive(v: bv32, w: bv32): bv32 {
    v ^ w
  }

  function Top(x: bv8): bv32 {
    Up24(Wide(x))
  }

  lemma WideIsByte(x: bv8)
    ensures Wide(x) & 0xff == Wide(x)
  {
  }

  lemma JoinBytes(a: bv8, b: bv8, c: bv8, d: bv8)
    ensures Low(Shift(Join(Wide(a), Wide(b), Wide(c), Wide(d)), 24)) == a
    ensures Low(Shift(Join(Wide(a), Wide(b), Wide(c), Wide(d)), 16)) == b
    ensures Low(Shift(Join(Wide(a), Wide(b), Wide(c), Wide(d)), 8)) == c
    ensures Low(Join(Wide(a), Wide(b), Wide(c), Wide(d))) == d
  {
  }

  lemma RotateBytes(a: bv32, b: bv32, c: bv32, d: bv32)
    requires a & 0xff == a && b & 0xff == b && c & 0xff == c && d & 0xff == d
    ensures Rotate(Join(a, b, c, d)) == Join(b, c, d, a)
  {
  }

  function Layers(a: bv32, b: bv32, c: bv32, d: bv32): bv32 {
    Exclusive(Exclusive(Up24(a), Up16(b)), Exclusive(Up8(c), d))
  }

  lemma ExclusiveAssoc(a: bv32, b: bv32, c: bv32)
    ensures Exclusive(Exclusive(a, b), c) == Exclusive(a, Exclusive(b, c))
  {
  }

  lemma ExclusiveComm(a: bv32, b: bv32)
    ensures Exclusive(a, b) == Exclusive(b, a)
  {
  }

  lemma SwapExclusive(a: bv32, b: bv32, c: bv32, d: bv32)
    ensures Exclusive(Exclusive(a, b), Exclusive(c, d)) == Exclusive(Exclusive(a, c), Exclusive(b, d))
  {
    hide Exclusive;
    ExclusiveAssoc(a, b, Exclusive(c, d));
    ExclusiveAssoc(b, c, d);
    ExclusiveComm(b, c);
    ExclusiveAssoc(c, b, d);
    ExclusiveAssoc(a, c, Exclusive(b, d));
  }

  lemma Shift24Exclusive(a: bv32, b: bv32)
    ensures Up24(Exclusive(a, b)) == Exclusive(Up24(a), Up24(b))
  {
  }

  lemma Shift16Exclusive(a: bv32, b: bv32)
    ensures Up16(Exclusive(a, b)) == Exclusive(Up16(a), Up16(b))
  {
  }

  lemma Shift8Exclusive(a: bv32, b: bv32)
    ensures Up8(Exclusive(a, b)) == Exclusive(Up8(a), Up8(b))
  {
  }

  lemma JoinIsLayers(a: bv32, b: bv32, c: bv32, d: bv32)
    requires a & 0xff == a && b & 0xff == b && c & 0xff == c && d & 0xff == d
    ensures Join(a, b, c, d) == Layers(a, b, c, d)
  {
  }

  lemma LayersXor(a: bv32, b: bv32, c: bv32, d: bv32, e: bv32, f: bv32, g: bv32, h: bv32)
    ensures Exclusive(Layers(a, b, c, d), Layers(e, f, g, h))
         == Layers(Exclusive(a, e), Exclusive(b, f), Exclusive(c, g), Exclusive(d, h))
  {
    hide Exclusive, Up24, Up16, Up8;
    Shift24Exclusive(a, e); Shift16Exclusive(b, f); Shift8Exclusive(c, g);
    SwapExclusive(Up24(a), Up16(b), Up24(e), Up16(f));
    SwapExclusive(Up8(c), d, Up8(g), h);
    SwapExclusive(Exclusive(Up24(a), Up16(b)), Exclusive(Up8(c), d), Exclusive(Up24(e), Up16(f)), Exclusive(Up8(g), h));
  }

  lemma ExclusiveByte(a: bv32, b: bv32)
    requires a & 0xff == a && b & 0xff == b
    ensures Exclusive(a, b) & 0xff == Exclusive(a, b)
  {
  }

  lemma ExclusiveBytes(a: bv32, b: bv32, c: bv32, d: bv32, e: bv32, f: bv32, g: bv32, h: bv32)
    requires a & 0xff == a && b & 0xff == b && c & 0xff == c && d & 0xff == d
    requires e & 0xff == e && f & 0xff == f && g & 0xff == g && h & 0xff == h
    ensures Exclusive(Join(a, b, c, d), Join(e, f, g, h))
         == Join(Exclusive(a, e), Exclusive(b, f), Exclusive(c, g), Exclusive(d, h))
  {
    hide Layers, Join, Exclusive;
    JoinIsLayers(a, b, c, d);
    JoinIsLayers(e, f, g, h);
    LayersXor(a, b, c, d, e, f, g, h);
    ExclusiveByte(a, e); ExclusiveByte(b, f); ExclusiveByte(c, g); ExclusiveByte(d, h);
    JoinIsLayers(Exclusive(a, e), Exclusive(b, f), Exclusive(c, g), Exclusive(d, h));
  }

  lemma WideXor(x: bv8, y: bv8)
    ensures Wide(x ^ y) == Exclusive(Wide(x), Wide(y))
  {
  }
}
